/** The `.claude` folder operations of the deployment tool: detection,
    inventories, backups, fresh copies, merges, clean-up and the search for
    the repository root, all run against a `Disk.FileSystem`. */
module Filesystem {
  import opened Wrappers
  import opened Strings
  import opened Paths
  import opened Disk

  const ClaudeDirName: string := ".claude"
  const CommandsDirName: string := "commands"
  const SettingsName: string := "settings.json"
  const LocalSettingsName: string := "settings.local.json"
  const GitDirName: string := ".git"

  /** The exceptions the folder operations raise or report. */
  datatype Failure =
    | FolderNotFound(path: Path)                  // ClaudeFolderNotFoundError, naming the path in its message
    | FolderCorrupted(repo: Path, inCommands: bool) // ClaudeFolderCorruptedError: `.claude` itself, or `.claude/commands`, is not a directory
    | NothingToBackUp(path: Path)                 // ValueError raised by create_backup
    | Os(error: FsError)                          // an exception from the operating system

  // -----------------------------------------------------------------------
  // detect_claude_folder
  // -----------------------------------------------------------------------

  /** `detect_claude_folder`: missing, corrupted (the folder, or its
      `commands` entry, is not a directory) or usable; a missing `commands`
      directory is fine. */
  function DetectClaudeFolder(fs: FileSystem, repo: Path): (r: Result<Path, Failure>)
    reads fs
    ensures r.Err? && r.error.FolderNotFound? <==> !fs.Exists(repo + [ClaudeDirName])
    ensures r.Err? && r.error.FolderCorrupted? <==>
              fs.Exists(repo + [ClaudeDirName])
              && (!fs.IsDir(repo + [ClaudeDirName])
                  || (fs.Exists(repo + [ClaudeDirName, CommandsDirName]) && !fs.IsDir(repo + [ClaudeDirName, CommandsDirName])))
    ensures r == Err(FolderCorrupted(repo, false)) <==> fs.Exists(repo + [ClaudeDirName]) && !fs.IsDir(repo + [ClaudeDirName])
    ensures r.Err? ==> r.error in {FolderNotFound(repo), FolderCorrupted(repo, false), FolderCorrupted(repo, true)}
    ensures r.Ok? ==> r.value == repo + [ClaudeDirName] && fs.IsDir(r.value)
  {
    var claude := repo + [ClaudeDirName];
    var commands := claude + [CommandsDirName];
    assert commands == repo + [ClaudeDirName, CommandsDirName];
    if !fs.Exists(claude) then Err(FolderNotFound(repo))
    else if !fs.IsDir(claude) then Err(FolderCorrupted(repo, false))
    else if fs.Exists(commands) && !fs.IsDir(commands) then Err(FolderCorrupted(repo, true))
    else Ok(claude)
  }

  /** A usable folder needs no `commands` directory. */
  lemma DetectWithoutCommands(fs: FileSystem, repo: Path)
    requires fs.IsDir(repo + [ClaudeDirName]) && !fs.Exists(repo + [ClaudeDirName, CommandsDirName])
    ensures DetectClaudeFolder(fs, repo) == Ok(repo + [ClaudeDirName])
  {
  }

  // -----------------------------------------------------------------------
  // get_claude_folder_info
  // -----------------------------------------------------------------------

  datatype FolderInfo = FolderInfo(
    path: Path,
    present: bool,
    sizeBytes: nat,
    commandCount: nat,
    hasSettings: bool,
    hasLocalSettings: bool,
    files: seq<Path>)

  /** pathlib's `suffix == ".md"`: the text after the last dot, when that dot
      is neither the first nor the last character. */
  predicate HasMdSuffix(name: string) {
    |name| >= 4 && EndsWith(name, ".md")
  }

  /** A file counted as a command by `get_claude_folder_info`: its direct
      parent is named `commands`, at any depth. */
  predicate IsCommandFile(p: Path) {
    Name(Parent(p)) == CommandsDirName && HasMdSuffix(Name(p))
  }

  /** The files of a walk that count as commands. */
  function CommandFiles(walk: map<Path, Bytes>, root: Path): set<Path> {
    set rel | rel in walk && IsCommandFile(root + rel)
  }

  /** `get_claude_folder_info`: one pass over the files below the folder
      (in any order) collects their relative paths, their total size and the
      number of command files. */
  method GetClaudeFolderInfo(fs: FileSystem, claude: Path) returns (info: FolderInfo)
    ensures info.path == claude && info.present == fs.Exists(claude)
    ensures info.hasSettings == (fs.Exists(claude) && fs.Exists(claude + [SettingsName]))
    ensures info.hasLocalSettings == (fs.Exists(claude) && fs.Exists(claude + [LocalSettingsName]))
    ensures forall rel :: rel in info.files <==> rel in fs.Walk(claude)
    ensures |info.files| == |fs.Walk(claude)|
    ensures info.sizeBytes == TotalSize(fs.Walk(claude))
    ensures info.commandCount == |CommandFiles(fs.Walk(claude), claude)|
  {
    var walk := fs.Walk(claude);
    if !fs.Exists(claude) {
      assert walk == map[];
      assert CommandFiles(walk, claude) == {};
      return FolderInfo(claude, false, 0, 0, false, false, []);
    }
    var files, size, commands := TallyWalk(walk, claude);
    info := FolderInfo(claude, true, size, commands, fs.Exists(claude + [SettingsName]),
                       fs.Exists(claude + [LocalSettingsName]), files);
  }

  /** The loop of `get_claude_folder_info` over a walk below `root`, in any
      order: lists every file once, adds up the sizes and counts the command
      files. */
  method TallyWalk(walk: map<Path, Bytes>, root: Path) returns (files: seq<Path>, size: nat, commands: nat)
    ensures forall rel :: rel in files <==> rel in walk
    ensures |files| == |walk|
    ensures size == TotalSize(walk)
    ensures commands == |CommandFiles(walk, root)|
  {
    files, size, commands := [], 0, 0;
    var todo := walk.Keys;
    assert Restrict(walk, walk.Keys - todo) == map[];
    while todo != {}
      invariant todo <= walk.Keys
      invariant forall rel :: rel in files <==> rel in walk && rel !in todo
      invariant |files| + |todo| == |walk|
      invariant size == TotalSize(Restrict(walk, walk.Keys - todo))
      invariant commands == |CommandFiles(Restrict(walk, walk.Keys - todo), root)|
      decreases |todo|
    {
      var rel :| rel in todo;
      TotalSizeStep(walk, todo, rel);
      CommandFilesStep(walk, todo, rel, root);
      files, size := files + [rel], size + |walk[rel]|;
      if IsCommandFile(root + rel) {
        commands := commands + 1;
      }
      todo := todo - {rel};
    }
    assert Restrict(walk, walk.Keys - todo) == walk;
  }

  /** Finishing one more file of a walk adds it to the command count exactly
      when it is a command file. */
  lemma CommandFilesStep(walk: map<Path, Bytes>, todo: set<Path>, rel: Path, root: Path)
    requires rel in todo && rel in walk
    ensures |CommandFiles(Restrict(walk, walk.Keys - (todo - {rel})), root)|
            == |CommandFiles(Restrict(walk, walk.Keys - todo), root)| + (if IsCommandFile(root + rel) then 1 else 0)
  {
    var before := CommandFiles(Restrict(walk, walk.Keys - todo), root);
    var after := CommandFiles(Restrict(walk, walk.Keys - (todo - {rel})), root);
    if IsCommandFile(root + rel) {
      assert after == before + {rel};
    } else {
      assert after == before;
    }
  }

  // -----------------------------------------------------------------------
  // validate_claude_folder_structure
  // -----------------------------------------------------------------------

  datatype Structure = Structure(
    hasCommandsDir: bool,
    commandCount: nat,
    hasSettings: bool,
    hasLocalSettings: bool,
    totalFiles: nat)

  datatype Validation = Validation(valid: bool, warnings: seq<string>, errors: seq<string>, structure: Structure)

  const MissingFolderError: string := ".claude folder does not exist"
  const FolderNotDirError: string := ".claude exists but is not a directory"
  const CommandsNotDirError: string := "commands exists but is not a directory"
  const NoCommandsWarning: string := "No commands directory found"
  const SettingsNotFileWarning: string := "settings.json exists but is not a file"
  const LocalSettingsNotFileWarning: string := "settings.local.json exists but is not a file"

  /** The entries `commands.glob("*.md")` yields that are regular files:
      those directly inside `commands` whose name ends in `.md` (the bare
      name `.md` included). */
  function GlobbedCommands(fs: FileSystem, commands: Path): set<string>
    reads fs
  {
    set n | n in fs.ChildNames(commands) && EndsWith(n, ".md") && fs.IsFile(commands + [n])
  }

  /** The counting loop over `commands.glob("*.md")`. */
  method CountGlobbedCommands(fs: FileSystem, commands: Path) returns (count: nat)
    ensures count == |GlobbedCommands(fs, commands)|
  {
    var todo := set n | n in fs.ChildNames(commands) && EndsWith(n, ".md");
    ghost var counted: set<string> := {};
    count := 0;
    while todo != {}
      invariant forall n :: n in todo ==> n in fs.ChildNames(commands) && EndsWith(n, ".md")
      invariant forall n :: n in counted ==> n !in todo
      invariant forall n :: n in GlobbedCommands(fs, commands) <==> n in counted || (n in todo && fs.IsFile(commands + [n]))
      invariant count == |counted|
      decreases |todo|
    {
      var n :| n in todo;
      if fs.IsFile(commands + [n]) {
        count := count + 1;
        counted := counted + {n};
      }
      todo := todo - {n};
    }
    assert counted == GlobbedCommands(fs, commands);
  }

  /** `sum(1 for f in root.rglob("*") if f.is_file())`. */
  method CountFiles(fs: FileSystem, root: Path) returns (count: nat)
    ensures count == |fs.Walk(root)|
  {
    var walk := fs.Walk(root);
    var todo := walk.Keys;
    count := 0;
    while todo != {}
      invariant todo <= walk.Keys
      invariant count + |todo| == |walk|
      decreases |todo|
    {
      var rel :| rel in todo;
      count := count + 1;
      todo := todo - {rel};
    }
  }

  /** The folders `validate_claude_folder_structure` calls valid. */
  predicate FolderIsValid(fs: FileSystem, claude: Path)
    reads fs
  {
    fs.IsDir(claude) && (!fs.Exists(claude + [CommandsDirName]) || fs.IsDir(claude + [CommandsDirName]))
  }

  /** Validation and detection accept exactly the same folders. */
  lemma ValidationAgreesWithDetection(fs: FileSystem, repo: Path)
    ensures FolderIsValid(fs, repo + [ClaudeDirName]) <==> DetectClaudeFolder(fs, repo).Ok?
  {
    assert repo + [ClaudeDirName] + [CommandsDirName] == repo + [ClaudeDirName, CommandsDirName];
  }

  /** One settings check: whether `p` is a regular file, and the warning
      when it exists but is not one. */
  method CheckSettingsEntry(fs: FileSystem, p: Path, warning: string) returns (isFile: bool, warnings: seq<string>)
    ensures isFile == fs.IsFile(p)
    ensures warnings == (if fs.Exists(p) && !fs.IsFile(p) then [warning] else [])
  {
    isFile, warnings := false, [];
    if fs.Exists(p) {
      if fs.IsFile(p) {
        isFile := true;
      } else {
        warnings := [warning];
      }
    }
  }

  /** The warning a missing `commands` entry gives. */
  function CommandsWarnings(fs: FileSystem, claude: Path): seq<string>
    reads fs
  {
    if !fs.Exists(claude + [CommandsDirName]) then [NoCommandsWarning] else []
  }

  /** The warnings about the settings files, in order. */
  function SettingsWarnings(fs: FileSystem, claude: Path): seq<string>
    reads fs
  {
    (if fs.Exists(claude + [SettingsName]) && !fs.IsFile(claude + [SettingsName]) then [SettingsNotFileWarning] else [])
    + (if fs.Exists(claude + [LocalSettingsName]) && !fs.IsFile(claude + [LocalSettingsName]) then [LocalSettingsNotFileWarning] else [])
  }

  /** `validate_claude_folder_structure`: the folder is valid exactly when it
      is a directory whose `commands` entry, if any, is a directory too. A
      `commands` entry that is not a directory makes the folder invalid but
      the remaining checks still run. */
  method ValidateClaudeFolderStructure(fs: FileSystem, claude: Path) returns (v: Validation)
    ensures v.valid == FolderIsValid(fs, claude)
    ensures v.errors == (if !fs.Exists(claude) then [MissingFolderError]
                         else if !fs.IsDir(claude) then [FolderNotDirError]
                         else if !FolderIsValid(fs, claude) then [CommandsNotDirError]
                         else [])
    ensures v.warnings == (if fs.IsDir(claude) then CommandsWarnings(fs, claude) + SettingsWarnings(fs, claude) else [])
    ensures !fs.IsDir(claude) ==> v.structure == Structure(false, 0, false, false, 0)
    ensures fs.IsDir(claude) ==>
              v.structure.hasCommandsDir == fs.IsDir(claude + [CommandsDirName])
              && v.structure.commandCount == (if fs.IsDir(claude + [CommandsDirName]) then |GlobbedCommands(fs, claude + [CommandsDirName])| else 0)
              && v.structure.hasSettings == fs.IsFile(claude + [SettingsName])
              && v.structure.hasLocalSettings == fs.IsFile(claude + [LocalSettingsName])
              && v.structure.totalFiles == |fs.Walk(claude)|
  {
    v := Validation(true, [], [], Structure(false, 0, false, false, 0));
    if !fs.Exists(claude) {
      v := v.(valid := false, errors := v.errors + [MissingFolderError]);
      return;
    }
    if !fs.IsDir(claude) {
      v := v.(valid := false, errors := v.errors + [FolderNotDirError]);
      return;
    }
    var commands := claude + [CommandsDirName];
    var hasCommands, count, errors, warnings := CheckCommandsEntry(fs, commands);
    var hasSettings, w1 := CheckSettingsEntry(fs, claude + [SettingsName], SettingsNotFileWarning);
    var hasLocal, w2 := CheckSettingsEntry(fs, claude + [LocalSettingsName], LocalSettingsNotFileWarning);
    var total := CountFiles(fs, claude);
    v := Validation(errors == [], warnings + (w1 + w2), errors,
                    Structure(hasCommands, count, hasSettings, hasLocal, total));
  }

  /** The `commands` check: a directory is globbed for commands, anything
      else there is an error, and nothing there is a warning. */
  method CheckCommandsEntry(fs: FileSystem, commands: Path)
    returns (isDir: bool, count: nat, errors: seq<string>, warnings: seq<string>)
    ensures isDir == fs.IsDir(commands)
    ensures count == (if isDir then |GlobbedCommands(fs, commands)| else 0)
    ensures errors == (if fs.Exists(commands) && !isDir then [CommandsNotDirError] else [])
    ensures warnings == (if fs.Exists(commands) then [] else [NoCommandsWarning])
  {
    isDir, count, errors, warnings := false, 0, [], [];
    if fs.Exists(commands) {
      if fs.IsDir(commands) {
        isDir := true;
        count := CountGlobbedCommands(fs, commands);
      } else {
        errors := [CommandsNotDirError];
      }
    } else {
      warnings := [NoCommandsWarning];
    }
  }

  // -----------------------------------------------------------------------
  // create_backup
  // -----------------------------------------------------------------------

  const BackupPrefix: string := ".claude.backup."

  /** The `k`-th name `create_backup` tries: `.claude.backup.<ts>` first,
      then `.claude.backup.<ts>.<k>` for k = 1, 2, … */
  function BackupName(ts: nat, k: nat): (n: string)
    ensures StartsWith(n, BackupPrefix + NatToString(ts))
    ensures k == 0 <==> |n| == |BackupPrefix + NatToString(ts)|
  {
    if k == 0 then BackupPrefix + NatToString(ts)
    else BackupPrefix + NatToString(ts) + "." + NatToString(k)
  }

  /** Different attempts try different names. */
  lemma BackupNameInjective(ts: nat, j: nat, k: nat)
    ensures BackupName(ts, j) == BackupName(ts, k) ==> j == k
  {
    var head := BackupPrefix + NatToString(ts);
    if j != 0 && k != 0 {
      assert BackupName(ts, j)[|head| + 1..] == NatToString(j);
      assert BackupName(ts, k)[|head| + 1..] == NatToString(k);
      NatToStringInjective(j, k);
    }
  }

  /** The `k`-th candidate, a sibling of the folder being backed up. */
  function BackupPath(claude: Path, ts: nat, k: nat): Path {
    Parent(claude) + [BackupName(ts, k)]
  }

  /** Candidate `k` is free and every earlier candidate is taken. */
  predicate FirstFreeBackup(fs: FileSystem, claude: Path, ts: nat, k: nat)
    reads fs
  {
    !fs.Exists(BackupPath(claude, ts, k)) && forall j :: 0 <= j < k ==> fs.Exists(BackupPath(claude, ts, j))
  }

  /** A directory holding the first `k + 1` candidates has at least `k + 1`
      entries, so the search for a free name ends. */
  lemma {:induction false} CandidatesFit(ts: nat, k: nat, names: set<string>)
    requires forall j :: 0 <= j <= k ==> BackupName(ts, j) in names
    ensures k + 1 <= |names|
    decreases k
  {
    var rest := names - {BackupName(ts, k)};
    if k > 0 {
      forall j | 0 <= j <= k - 1
        ensures BackupName(ts, j) in rest
      {
        BackupNameInjective(ts, j, k);
      }
      CandidatesFit(ts, k - 1, rest);
    }
  }

  /** When the first `k + 1` candidates all exist, their directory has at
      least `k + 1` entries. */
  lemma CandidatesTaken(fs: FileSystem, parent: Path, ts: nat, k: nat)
    requires forall j :: 0 <= j <= k ==> fs.Exists(parent + [BackupName(ts, j)])
    ensures k + 1 <= |fs.ChildNames(parent)|
  {
    CandidatesFit(ts, k, fs.ChildNames(parent));
  }

  /** The naming loop of `create_backup`: tries the candidates in order and
      stops at the first one that does not exist. */
  method ChooseBackupPath(fs: FileSystem, claude: Path, ts: nat) returns (k: nat, b: Path)
    ensures b == BackupPath(claude, ts, k)
    ensures FirstFreeBackup(fs, claude, ts, k)
  {
    var parent := Parent(claude);
    k := 0;
    b := parent + [BackupName(ts, 0)];
    while fs.Exists(b)
      invariant b == parent + [BackupName(ts, k)]
      invariant forall j :: 0 <= j < k ==> fs.Exists(parent + [BackupName(ts, j)])
      invariant k <= |fs.ChildNames(parent)|
      decreases |fs.ChildNames(parent)| - k
    {
      CandidatesTaken(fs, parent, ts, k);
      k := k + 1;
      b := parent + [BackupName(ts, k)];
    }
  }

  /** `create_backup`: copies the folder to the first free candidate name
      next to it. Files that existed before are never changed, whatever
      happens; on success the backup holds exactly the folder's files. */
  method CreateBackup(fs: FileSystem, claude: Path, ts: nat) returns (r: Result<Path, Failure>)
    modifies fs
    ensures !old(fs.Exists(claude)) ==> r == Err(NothingToBackUp(claude)) && fs.files == old(fs.files) && fs.dirs == old(fs.dirs)
    ensures r.Ok? ==> exists k :: r.value == BackupPath(claude, ts, k) && old(FirstFreeBackup(fs, claude, ts, k))
    ensures r.Ok? ==> old(fs.IsDir(claude)) && fs.files == old(fs.files) + Graft(old(Inventory(fs.files, claude)), r.value)
    ensures r.Ok? ==> fs.dirs == old(fs.dirs) + {r.value} + GraftDirs(old(RelDirs(fs.dirs, claude)), r.value)
    ensures r.Ok? ==> Inventory(fs.files, r.value) == old(Inventory(fs.files, claude))
    ensures r.Ok? ==> (forall p :: p in old(fs.files) ==> !AtOrBelow(r.value, p))
                      && (forall p :: p in old(fs.dirs) ==> !AtOrBelow(r.value, p))
    ensures r.Ok? && claude != [] ==> Apart(claude, r.value)
    ensures r.Err? && old(fs.Exists(claude)) ==>
              exists k :: old(FirstFreeBackup(fs, claude, ts, k))
                && Without(fs.files, BackupPath(claude, ts, k)) == old(fs.files)
                && WithoutDirs(fs.dirs, BackupPath(claude, ts, k)) == old(fs.dirs)
    ensures claude != [] ==> Inventory(fs.files, claude) == old(Inventory(fs.files, claude))
    ensures forall p :: p in old(fs.files) ==> p in fs.files && fs.files[p] == old(fs.files)[p]
  {
    if !fs.Exists(claude) {
      return Err(NothingToBackUp(claude));
    }
    var k, b := ChooseBackupPath(fs, claude, ts);
    ghost var f0 := fs.files;
    ghost var inv := Inventory(fs.files, claude);
    ghost var d0 := fs.dirs;
    fs.NothingAtOrBelow(b);
    assert Without(f0, b) == f0;
    assert WithoutDirs(d0, b) == d0;
    var c := fs.CopyTree(claude, b);
    assert forall p :: p in f0 ==> p in Without(fs.files, b);
    if claude != [] {
      assert Name(claude) != BackupName(ts, k);
      SiblingsApart(Parent(claude), Name(claude), BackupName(ts, k));
      InventoryApart(fs.files, f0, b, claude);
    }
    if c.Err? {
      return Err(Os(c.error));
    }
    InventoryOfGraft(f0, inv, b);
    r := Ok(b);
  }

  // -----------------------------------------------------------------------
  // copy_claude_folder
  // -----------------------------------------------------------------------

  /** The recovery in `copy_claude_folder`'s error handler. `target` was
      backed up to the fresh sibling `b` (from the files `f0` and explicit
      directories `d0`), then removed, and a copy into it failed part of the
      way. Whatever the copy left at `target` is removed and the backup
      renamed back: the files are exactly those one started from, and so are
      the directories, with `target` itself now explicit. */
  method RestoreBackup(fs: FileSystem, target: Path, b: Path, ghost f0: map<Path, Bytes>, ghost d0: set<Path>)
    requires target !in f0 && Apart(target, b)
    requires forall p :: p in f0 ==> !AtOrBelow(b, p)
    requires forall p :: p in d0 ==> !AtOrBelow(b, p)
    requires Without(fs.files, target) == Without(f0 + Graft(Inventory(f0, target), b), target)
    requires WithoutDirs(fs.dirs, target) == WithoutDirs(d0 + {b} + GraftDirs(RelDirs(d0, target), b), target)
    modifies fs
    ensures fs.files == f0
    ensures fs.dirs == d0 + {target}
  {
    ghost var d3 := fs.dirs;
    ClearTarget(fs, target);
    RemovedBackupParts(f0, fs.files, target, b);
    ghost var g := fs.files;
    fs.MoveTree(b, target);
    RenamedBack(f0, g, target, b);
    RestoredDirs(d0, d0 + {b} + GraftDirs(RelDirs(d0, target), b), d3, target, b);
  }

  /** `if target.exists(): shutil.rmtree(target)`. */
  method ClearTarget(fs: FileSystem, target: Path)
    modifies fs
    ensures fs.files == Without(old(fs.files), target)
    ensures fs.dirs == WithoutDirs(old(fs.dirs), target)
    ensures !fs.Exists(target)
  {
    if fs.Exists(target) {
      fs.RemoveTree(target);
    } else {
      fs.NothingAtOrBelow(target);
      assert Without(fs.files, target) == fs.files;
      assert WithoutDirs(fs.dirs, target) == fs.dirs;
    }
  }

  /** The result dictionary of `copy_claude_folder`. */
  datatype CopyReport = CopyReport(
    success: bool,
    source: Path,
    target: Path,
    backupCreated: bool,
    backupPath: Option<Path>,
    filesCopied: nat,
    bytesCopied: nat,
    error: Option<Failure>)

  /** The first step of `copy_claude_folder` when the target exists and a
      backup is wanted: `create_backup`, then `shutil.rmtree(target)`. On
      success the backup is a fresh sibling holding the target's files, the
      target is gone, and nothing else has changed. */
  method BackUpTarget(fs: FileSystem, target: Path, ts: nat) returns (r: Result<Path, Failure>)
    requires target != [] && fs.Exists(target)
    modifies fs
    ensures r.Ok? ==> exists k :: r.value == BackupPath(target, ts, k) && old(FirstFreeBackup(fs, target, ts, k))
    ensures r.Ok? ==> old(fs.IsDir(target)) && Apart(target, r.value) && !fs.Exists(target)
    ensures r.Ok? ==> (forall p :: p in old(fs.files) ==> !AtOrBelow(r.value, p))
                      && (forall p :: p in old(fs.dirs) ==> !AtOrBelow(r.value, p))
    ensures r.Ok? ==> fs.files == Without(old(fs.files) + Graft(old(Inventory(fs.files, target)), r.value), target)
    ensures r.Ok? ==> fs.dirs == WithoutDirs(old(fs.dirs) + {r.value} + GraftDirs(old(RelDirs(fs.dirs, target)), r.value), target)
    ensures r.Ok? ==> r.value in fs.dirs && Inventory(fs.files, r.value) == old(Inventory(fs.files, target))
    ensures r.Err? ==> Inventory(fs.files, target) == old(Inventory(fs.files, target))
    ensures r.Err? ==>
              exists k :: old(FirstFreeBackup(fs, target, ts, k))
                && Without(fs.files, BackupPath(target, ts, k)) == old(fs.files)
                && WithoutDirs(fs.dirs, BackupPath(target, ts, k)) == old(fs.dirs)
  {
    r := CreateBackup(fs, target, ts);
    if r.Ok? {
      ghost var f1 := fs.files;
      AtOrBelowSelf(r.value);
      fs.RemoveTree(target);
      InventoryApart(fs.files, f1, target, r.value);
    }
  }

  /** Where a repository keeps its folder. */
  function TargetFolder(repo: Path): (t: Path)
    ensures t != [] && Parent(t) == repo && Name(t) == ClaudeDirName
  {
    repo + [ClaudeDirName]
  }

  /** A successful report: its counters describe what is now at `target`. */
  ghost predicate CopiedReport(fs: FileSystem, rep: CopyReport, target: Path)
    reads fs
  {
    rep.success && rep.error.None? && fs.IsDir(target)
    && rep.filesCopied == |Inventory(fs.files, target)|
    && rep.bytesCopied == TotalSize(Inventory(fs.files, target))
  }

  /** A failed report: an error, nothing counted, and no backup left behind. */
  predicate FailedReport(rep: CopyReport) {
    !rep.success && rep.error.Some? && !rep.backupCreated && rep.backupPath.None?
    && rep.filesCopied == 0 && rep.bytesCopied == 0
  }

  /** `copy_claude_folder`: copies the source folder to `<targetRepo>/.claude`,
      first moving an existing target aside as a backup when asked to. A
      missing source raises; every later failure is reported in the result,
      after putting a backed-up target back in place. */
  method CopyClaudeFolder(fs: FileSystem, source: Path, targetRepo: Path, backupIfExists: bool, ts: nat)
    returns (r: Result<CopyReport, Failure>)
    modifies fs
    ensures !old(fs.Exists(source)) ==> r == Err(FolderNotFound(source)) && fs.files == old(fs.files) && fs.dirs == old(fs.dirs)
    ensures old(fs.Exists(source)) ==> r.Ok? && r.value.source == source && r.value.target == TargetFolder(targetRepo)
    ensures r.Ok? ==> r.value.success == CopiedReport(fs, r.value, TargetFolder(targetRepo))
    ensures r.Ok? ==> !r.value.success == FailedReport(r.value)
    // a successful copy
    ensures r.Ok? && r.value.success ==>
              forall p :: p in old(fs.files) && !AtOrBelow(TargetFolder(targetRepo), p) ==> p in fs.files && fs.files[p] == old(fs.files)[p]
    ensures r.Ok? && r.value.success ==>
              (r.value.backupCreated <==> old(fs.Exists(TargetFolder(targetRepo)))) && (r.value.backupCreated ==> backupIfExists)
    ensures r.Ok? && r.value.backupCreated ==>
              r.value.backupPath.Some?
              && (exists k :: r.value.backupPath.value == BackupPath(TargetFolder(targetRepo), ts, k)
                             && old(FirstFreeBackup(fs, TargetFolder(targetRepo), ts, k)))
              && Inventory(fs.files, r.value.backupPath.value) == old(Inventory(fs.files, TargetFolder(targetRepo)))
    // outside the target: the old files and directories, and the backup
    ensures r.Ok? && r.value.success && !r.value.backupCreated ==>
              Without(fs.files, TargetFolder(targetRepo)) == Without(old(fs.files), TargetFolder(targetRepo))
              && WithoutDirs(fs.dirs, TargetFolder(targetRepo)) == WithoutDirs(old(fs.dirs), TargetFolder(targetRepo))
    ensures r.Ok? && r.value.success && r.value.backupCreated ==>
              Without(fs.files, TargetFolder(targetRepo))
              == Without(old(fs.files), TargetFolder(targetRepo)) + Graft(old(Inventory(fs.files, TargetFolder(targetRepo))), r.value.backupPath.value)
    ensures r.Ok? && r.value.success && r.value.backupCreated ==>
              WithoutDirs(fs.dirs, TargetFolder(targetRepo))
              == WithoutDirs(old(fs.dirs), TargetFolder(targetRepo))
                 + {r.value.backupPath.value} + GraftDirs(old(RelDirs(fs.dirs, TargetFolder(targetRepo))), r.value.backupPath.value)
    // inside the target: the source's files, unless the source lay where the backup step changed things
    ensures r.Ok? && r.value.success
            && (r.value.backupCreated ==> Apart(source, TargetFolder(targetRepo)) && Apart(source, r.value.backupPath.value)) ==>
              Inventory(fs.files, TargetFolder(targetRepo)) == old(Inventory(fs.files, source))
              && fs.files == Without(fs.files, TargetFolder(targetRepo)) + Graft(old(Inventory(fs.files, source)), TargetFolder(targetRepo))
    // a failed copy
    ensures r.Ok? && !r.value.success ==> forall p :: p in old(fs.files) ==> p in fs.files && fs.files[p] == old(fs.files)[p]
    ensures r.Ok? && !r.value.success && old(fs.Exists(TargetFolder(targetRepo))) ==>
              Inventory(fs.files, TargetFolder(targetRepo)) == old(Inventory(fs.files, TargetFolder(targetRepo)))
    ensures r.Ok? && !r.value.success && !old(fs.Exists(TargetFolder(targetRepo))) ==>
              Without(fs.files, TargetFolder(targetRepo)) == old(fs.files)
    ensures old(fs.Exists(source)) && old(fs.Exists(TargetFolder(targetRepo))) && !backupIfExists ==>
              !r.value.success && fs.files == old(fs.files) && fs.dirs == old(fs.dirs)
    ensures r.Ok? && !r.value.success && old(fs.IsDir(TargetFolder(targetRepo))) && backupIfExists ==>
              (fs.files == old(fs.files) && fs.dirs == old(fs.dirs) + {TargetFolder(targetRepo)})
              || exists k :: old(FirstFreeBackup(fs, TargetFolder(targetRepo), ts, k))
                   && Without(fs.files, BackupPath(TargetFolder(targetRepo), ts, k)) == old(fs.files)
                   && WithoutDirs(fs.dirs, BackupPath(TargetFolder(targetRepo), ts, k)) == old(fs.dirs)
  {
    if !fs.Exists(source) {
      return Err(FolderNotFound(source));
    }
    var target := TargetFolder(targetRepo);
    var report := CopyReport(false, source, target, false, None, 0, 0, None);
    var rep;
    if fs.Exists(target) && backupIfExists {
      rep := CopyWithBackup(fs, source, target, ts, report);
    } else {
      if !fs.Exists(target) {
        fs.NothingAtOrBelow(target);
        assert Without(fs.files, target) == fs.files;
        assert WithoutDirs(fs.dirs, target) == fs.dirs;
      }
      rep := CopyWithoutBackup(fs, source, target, report);
      if rep.success {
        Reassemble(fs.files, target);
      }
    }
    r := Ok(rep);
  }

  /** The branch of `copy_claude_folder` that first backs up an existing
      target. On success the backup holds the old target and the target the
      source's files; on failure nothing that existed is lost. */
  method CopyWithBackup(fs: FileSystem, source: Path, target: Path, ts: nat, report: CopyReport) returns (rep: CopyReport)
    requires target != [] && fs.Exists(target)
    requires report == CopyReport(false, source, target, false, None, 0, 0, None)
    modifies fs
    ensures rep.source == source && rep.target == target
    ensures rep.success == CopiedReport(fs, rep, target)
    ensures !rep.success == FailedReport(rep)
    ensures rep.success ==> rep.backupCreated
    ensures rep.backupCreated ==>
              rep.backupPath.Some?
              && (exists k :: rep.backupPath.value == BackupPath(target, ts, k) && old(FirstFreeBackup(fs, target, ts, k)))
              && Inventory(fs.files, rep.backupPath.value) == old(Inventory(fs.files, target))
    ensures rep.success ==> forall p :: p in old(fs.files) && !AtOrBelow(target, p) ==> p in fs.files && fs.files[p] == old(fs.files)[p]
    ensures rep.success ==>
              Without(fs.files, target) == Without(old(fs.files), target) + Graft(old(Inventory(fs.files, target)), rep.backupPath.value)
    ensures rep.success ==>
              WithoutDirs(fs.dirs, target)
              == WithoutDirs(old(fs.dirs), target) + {rep.backupPath.value} + GraftDirs(old(RelDirs(fs.dirs, target)), rep.backupPath.value)
    ensures rep.success && Apart(source, target) && Apart(source, rep.backupPath.value) ==>
              Inventory(fs.files, target) == old(Inventory(fs.files, source))
              && fs.files == Without(fs.files, target) + Graft(old(Inventory(fs.files, source)), target)
    ensures !rep.success ==> forall p :: p in old(fs.files) ==> p in fs.files && fs.files[p] == old(fs.files)[p]
    ensures !rep.success ==> Inventory(fs.files, target) == old(Inventory(fs.files, target))
    ensures !rep.success && old(fs.IsDir(target)) ==>
              (fs.files == old(fs.files) && fs.dirs == old(fs.dirs) + {target})
              || exists k :: old(FirstFreeBackup(fs, target, ts, k))
                   && Without(fs.files, BackupPath(target, ts, k)) == old(fs.files)
                   && WithoutDirs(fs.dirs, BackupPath(target, ts, k)) == old(fs.dirs)
  {
    ghost var f0 := fs.files;
    ghost var d0 := fs.dirs;
    var b := BackUpTarget(fs, target, ts);
    if b.Err? {
      rep := report.(error := Some(b.error));
      ghost var k :| old(FirstFreeBackup(fs, target, ts, k))
                      && Without(fs.files, BackupPath(target, ts, k)) == f0
                      && WithoutDirs(fs.dirs, BackupPath(target, ts, k)) == d0;
      assert forall p :: p in f0 ==> p in Without(fs.files, BackupPath(target, ts, k));
      return;
    }
    rep := CopyAfterBackup(fs, source, target, b.value, report.(backupCreated := true, backupPath := Some(b.value)), f0, d0);
    if rep.success {
      Reassemble(fs.files, target);
    }
  }

  /** The copy step when the target was backed up to `b` and removed: on
      success the report describes the new target and the backup still holds
      the old one; on failure the backup is renamed back. */
  method CopyAfterBackup(fs: FileSystem, source: Path, target: Path, b: Path, report: CopyReport,
                         ghost f0: map<Path, Bytes>, ghost d0: set<Path>) returns (rep: CopyReport)
    requires report == CopyReport(false, source, target, true, Some(b), 0, 0, None)
    requires target !in f0 && Apart(target, b) && !fs.Exists(target) && b in fs.dirs
    requires forall p :: p in f0 ==> !AtOrBelow(b, p)
    requires forall p :: p in d0 ==> !AtOrBelow(b, p)
    requires fs.files == Without(f0 + Graft(Inventory(f0, target), b), target)
    requires fs.dirs == WithoutDirs(d0 + {b} + GraftDirs(RelDirs(d0, target), b), target)
    requires Inventory(fs.files, b) == Inventory(f0, target)
    modifies fs
    ensures rep.source == source && rep.target == target
    ensures rep.success == CopiedReport(fs, rep, target)
    ensures !rep.success == FailedReport(rep)
    ensures rep.success && Apart(source, target) && Apart(source, b) ==> Inventory(fs.files, target) == Inventory(f0, source)
    ensures rep.success ==> forall p :: p in f0 && !AtOrBelow(target, p) ==> p in fs.files && fs.files[p] == f0[p]
    ensures rep.success ==> rep.backupCreated && rep.backupPath == Some(b) && Inventory(fs.files, b) == Inventory(f0, target)
    ensures rep.success ==> Without(fs.files, target) == Without(f0, target) + Graft(Inventory(f0, target), b)
    ensures rep.success ==> WithoutDirs(fs.dirs, target) == WithoutDirs(d0, target) + {b} + GraftDirs(RelDirs(d0, target), b)
    ensures !rep.success ==> fs.files == f0 && fs.dirs == d0 + {target}
  {
    ghost var f2 := fs.files;
    ghost var f1 := f0 + Graft(Inventory(f0, target), b);
    ghost var d1 := d0 + {b} + GraftDirs(RelDirs(d0, target), b);
    fs.NothingAtOrBelow(target);
    assert Without(f2, target) == Without(f1, target);
    assert WithoutDirs(fs.dirs, target) == WithoutDirs(d1, target);
    var c := fs.CopyTree(source, target);
    assert Without(fs.files, target) == Without(f1, target);
    assert WithoutDirs(fs.dirs, target) == WithoutDirs(d1, target);
    assert b in fs.dirs by {
      AtOrBelowSelf(b);
      assert b in WithoutDirs(fs.dirs, target);
    }
    if c.Ok? {
      WithoutApartGraft(f0, Inventory(f0, target), target, b);
      WithoutDirsApartGraft(d0, RelDirs(d0, target), target, b);
      InventoryApart(fs.files, f2, target, b);
      InventoryOfGraft(f2, Inventory(f2, source), target);
      assert target !in fs.files;
      forall p | p in f0 && !AtOrBelow(target, p)
        ensures p in fs.files && fs.files[p] == f0[p]
      {
        assert p !in Graft(Inventory(f0, target), b);
        assert p in Without(f1, target);
        assert p in Without(fs.files, target);
      }
      if Apart(source, target) && Apart(source, b) {
        InventoryApart(f2, f1, target, source);
        WithoutGraft(f0, Inventory(f0, target), b);
        InventoryApart(f1, f0, b, source);
      }
      rep := FinishCopy(fs, target, report);
      assert CopiedReport(fs, rep, target);
    } else {
      rep := report.(error := Some(Os(c.error)));
      if fs.Exists(b) {
        RestoreBackup(fs, target, b, f0, d0);
        rep := rep.(backupCreated := false, backupPath := None);
      }
      assert !rep.success && FailedReport(rep);
    }
  }

  /** The copy step when the target was not backed up. An existing target
      makes `copytree` raise before anything changes; otherwise every old
      file is kept and the copy only adds files below `target`. */
  method CopyWithoutBackup(fs: FileSystem, source: Path, target: Path, report: CopyReport) returns (rep: CopyReport)
    requires report == CopyReport(false, source, target, false, None, 0, 0, None)
    modifies fs
    ensures rep.source == source && rep.target == target
    ensures rep.success == CopiedReport(fs, rep, target)
    ensures !rep.success == FailedReport(rep)
    ensures rep.success ==> !old(fs.Exists(target)) && !rep.backupCreated
    ensures rep.success ==> fs.files == old(fs.files) + Graft(old(Inventory(fs.files, source)), target)
    ensures rep.success ==> Inventory(fs.files, target) == old(Inventory(fs.files, source))
    ensures old(fs.Exists(target)) ==> !rep.success && fs.files == old(fs.files) && fs.dirs == old(fs.dirs)
    ensures Without(fs.files, target) == Without(old(fs.files), target)
    ensures WithoutDirs(fs.dirs, target) == WithoutDirs(old(fs.dirs), target)
    ensures forall p :: p in old(fs.files) ==> p in fs.files && fs.files[p] == old(fs.files)[p]
  {
    ghost var f2 := fs.files;
    ghost var inv := Inventory(fs.files, source);
    ghost var present := fs.Exists(target);
    if !present {
      fs.NothingAtOrBelow(target);
    }
    var c := fs.CopyTree(source, target);
    if !present {
      forall p | p in f2
        ensures p in fs.files && fs.files[p] == f2[p]
      {
        assert p in Without(f2, target);
      }
    }
    if c.Ok? {
      InventoryOfGraft(f2, inv, target);
      assert target !in fs.files;
      rep := FinishCopy(fs, target, report);
    } else {
      rep := report.(error := Some(Os(c.error)));
    }
  }

  /** The statistics step of a successful copy: `get_claude_folder_info` on
      the new target gives the number of files and bytes copied. */
  method FinishCopy(fs: FileSystem, target: Path, report: CopyReport) returns (rep: CopyReport)
    requires fs.IsDir(target)
    ensures rep == report.(success := true, error := None, filesCopied := |Inventory(fs.files, target)|,
                           bytesCopied := TotalSize(Inventory(fs.files, target)))
  {
    var info := GetClaudeFolderInfo(fs, target);
    rep := report.(success := true, error := None, filesCopied := |info.files|, bytesCopied := info.sizeBytes);
  }

  // -----------------------------------------------------------------------
  // merge_claude_folders
  // -----------------------------------------------------------------------

  /** The result dictionary of a merge; `conflicts` is never filled in. */
  datatype MergeReport = MergeReport(
    success: bool,
    filesUpdated: nat,
    filesAdded: nat,
    filesPreserved: nat,
    conflicts: seq<Path>,
    error: Option<Failure>)

  /** What `merge_claude_folders` returns: the report of the plain copy it
      falls back on when the target is missing, or a merge report. */
  datatype MergeOutcome = Copied(copy: CopyReport) | Merged(merge: MergeReport)

  /** A path kept out of a merge that preserves local settings: its
      `/`-separated relative form contains `settings.local.json` anywhere. */
  predicate IsLocalSetting(rel: Path) {
    Contains(Join(rel, '/'), LocalSettingsName)
  }

  /** The source files the merge skips. */
  function PreservedFiles(inv: map<Path, Bytes>, preserveLocal: bool): set<Path> {
    set rel | rel in inv && preserveLocal && IsLocalSetting(rel)
  }

  /** The source files the merge brings over. */
  function Incoming(inv: map<Path, Bytes>, preserveLocal: bool): map<Path, Bytes> {
    map rel | rel in inv && !(preserveLocal && IsLocalSetting(rel)) :: inv[rel]
  }

  /** Incoming files with nothing yet at their place below `target`. */
  function AddedFiles(f: map<Path, Bytes>, inc: map<Path, Bytes>, target: Path): set<Path> {
    set rel | rel in inc && target + rel !in f
  }

  /** Incoming files whose place below `target` holds different bytes. */
  function UpdatedFiles(f: map<Path, Bytes>, inc: map<Path, Bytes>, target: Path): set<Path> {
    set rel | rel in inc && target + rel in f && f[target + rel] != inc[rel]
  }

  /** Every incoming file is already in place with the same bytes. */
  predicate Settled(f: map<Path, Bytes>, inc: map<Path, Bytes>, target: Path) {
    forall rel :: rel in inc ==> target + rel in f && f[target + rel] == inc[rel]
  }

  /** The local-settings filter splits the source files in two. */
  lemma PreservedSplit(inv: map<Path, Bytes>, preserveLocal: bool)
    ensures Incoming(inv, preserveLocal).Keys !! PreservedFiles(inv, preserveLocal)
    ensures Incoming(inv, preserveLocal).Keys + PreservedFiles(inv, preserveLocal) == inv.Keys
    ensures !preserveLocal ==> Incoming(inv, preserveLocal) == inv && PreservedFiles(inv, preserveLocal) == {}
  {
  }

  /** A finished merge deletes nothing, leaves the target of every
      preserved source file as it was, and leaves every file with no source
      counterpart as it was. */
  lemma MergeLeavesOthers(f: map<Path, Bytes>, inv: map<Path, Bytes>, preserveLocal: bool, target: Path)
    ensures f.Keys <= (f + Graft(Incoming(inv, preserveLocal), target)).Keys
    ensures forall rel :: rel in PreservedFiles(inv, preserveLocal) && target + rel in f ==>
              (f + Graft(Incoming(inv, preserveLocal), target))[target + rel] == f[target + rel]
    ensures forall p :: p in f && !(AtOrBelow(target, p) && p[|target|..] in inv) ==>
              (f + Graft(Incoming(inv, preserveLocal), target))[p] == f[p]
  {
    var inc := Incoming(inv, preserveLocal);
    forall rel | rel in PreservedFiles(inv, preserveLocal) && target + rel in f
      ensures (f + Graft(inc, target))[target + rel] == f[target + rel]
    {
      assert (target + rel)[|target|..] == rel;
      assert target + rel !in Graft(inc, target);
    }
  }

  /** A settled target is one a merge neither adds to nor updates, and one
      that grafting the incoming files onto leaves as it is. */
  lemma SettledMeansNothingToDo(f: map<Path, Bytes>, inc: map<Path, Bytes>, target: Path)
    ensures Settled(f, inc, target) <==> AddedFiles(f, inc, target) == {} && UpdatedFiles(f, inc, target) == {}
    ensures Settled(f, inc, target) <==> f + Graft(inc, target) == f
  {
    if Settled(f, inc, target) {
      forall p | p in f + Graft(inc, target)
        ensures p in f && (f + Graft(inc, target))[p] == f[p]
      {
        if p in Graft(inc, target) {
          assert p == target + p[|target|..];
        }
      }
    }
    if f + Graft(inc, target) == f {
      forall rel | rel in inc
        ensures target + rel in f && f[target + rel] == inc[rel]
      {
        assert target + rel in Graft(inc, target);
      }
    }
    if AddedFiles(f, inc, target) == {} && UpdatedFiles(f, inc, target) == {} {
      forall rel | rel in inc
        ensures target + rel in f && f[target + rel] == inc[rel]
      {
        assert rel !in AddedFiles(f, inc, target);
        assert rel !in UpdatedFiles(f, inc, target);
      }
    }
  }

  /** After grafting the incoming files the target is settled. */
  lemma GraftSettles(f: map<Path, Bytes>, inc: map<Path, Bytes>, target: Path)
    ensures Settled(f + Graft(inc, target), inc, target)
  {
    forall rel | rel in inc
      ensures target + rel in f + Graft(inc, target) && (f + Graft(inc, target))[target + rel] == inc[rel]
    {
      assert target + rel in Graft(inc, target);
    }
  }

  /** A place whose relative path has not been merged yet still holds what it
      held at the start. */
  lemma GraftMiss(f: map<Path, Bytes>, m: map<Path, Bytes>, target: Path, rel: Path)
    requires rel !in m
    ensures target + rel in f + Graft(m, target) <==> target + rel in f
    ensures target + rel in f ==> (f + Graft(m, target))[target + rel] == f[target + rel]
  {
    assert (target + rel)[|target|..] == rel;
  }

  /** Merging one more file adds one to the added count exactly when nothing
      was at its place. */
  lemma AddedCount(f: map<Path, Bytes>, m: map<Path, Bytes>, rel: Path, v: Bytes, target: Path)
    requires rel !in m
    ensures |AddedFiles(f, m[rel := v], target)| == |AddedFiles(f, m, target)| + (if target + rel !in f then 1 else 0)
  {
    var a := AddedFiles(f, m, target);
    if target + rel !in f {
      assert AddedFiles(f, m[rel := v], target) == a + {rel};
    } else {
      assert AddedFiles(f, m[rel := v], target) == a;
    }
  }

  /** Merging one more file adds one to the updated count exactly when its
      place held different bytes. */
  lemma UpdatedCount(f: map<Path, Bytes>, m: map<Path, Bytes>, rel: Path, v: Bytes, target: Path)
    requires rel !in m
    ensures |UpdatedFiles(f, m[rel := v], target)|
            == |UpdatedFiles(f, m, target)| + (if target + rel in f && f[target + rel] != v then 1 else 0)
  {
    var u := UpdatedFiles(f, m, target);
    if target + rel in f && f[target + rel] != v {
      assert UpdatedFiles(f, m[rel := v], target) == u + {rel};
    } else {
      assert UpdatedFiles(f, m[rel := v], target) == u;
    }
  }

  /** Finishing one more source file adds one to the preserved count exactly
      when that file is preserved. */
  lemma PreservedCount(inv: map<Path, Bytes>, preserveLocal: bool, todo: set<Path>, rel: Path)
    requires rel in todo
    ensures |PreservedFiles(inv, preserveLocal) - (todo - {rel})|
            == |PreservedFiles(inv, preserveLocal) - todo| + (if rel in inv && preserveLocal && IsLocalSetting(rel) then 1 else 0)
  {
    var s := PreservedFiles(inv, preserveLocal);
    if rel in inv && preserveLocal && IsLocalSetting(rel) {
      assert s - (todo - {rel}) == (s - todo) + {rel};
    } else {
      assert s - (todo - {rel}) == s - todo;
    }
  }

  /** A partial merge only changes files below `target`, each to its incoming
      content. */
  lemma PartialMerge(f: map<Path, Bytes>, m: map<Path, Bytes>, inc: map<Path, Bytes>, target: Path)
    requires forall rel :: rel in m ==> rel in inc && m[rel] == inc[rel]
    ensures f.Keys <= (f + Graft(m, target)).Keys
    ensures forall p :: p in f + Graft(m, target) ==>
              (p in f && (f + Graft(m, target))[p] == f[p])
              || (p in Graft(inc, target) && (f + Graft(m, target))[p] == Graft(inc, target)[p])
  {
    forall p | p in f + Graft(m, target) && p !in Graft(m, target)
      ensures p in f && (f + Graft(m, target))[p] == f[p]
    {
    }
    forall p | p in Graft(m, target)
      ensures p in Graft(inc, target) && (f + Graft(m, target))[p] == Graft(inc, target)[p]
    {
      assert p == target + p[|target|..];
    }
  }

  /** The incoming files a walk has finished with while `todo` is left. */
  function Done(inc: map<Path, Bytes>, todo: set<Path>): map<Path, Bytes> {
    map rel | rel in inc && rel !in todo :: inc[rel]
  }

  /** Finishing one more source file extends the finished part by it when it
      is incoming; a walk that is through has finished every incoming file. */
  lemma DoneStep(inc: map<Path, Bytes>, todo: set<Path>, rel: Path)
    requires rel in todo
    ensures rel !in Done(inc, todo)
    ensures Done(inc, todo - {rel}) == if rel in inc then Done(inc, todo)[rel := inc[rel]] else Done(inc, todo)
  {
  }

  /** A walk that is through has finished every incoming file. */
  lemma DoneAll(inc: map<Path, Bytes>)
    ensures Done(inc, {}) == inc
  {
  }

  /** One merged file, written or already in place, extends the grafted
      part of the map by that file. */
  lemma MergeStepFiles(f: map<Path, Bytes>, m: map<Path, Bytes>, rel: Path, v: Bytes, target: Path, after: map<Path, Bytes>)
    requires rel !in m
    requires after == (f + Graft(m, target))[target + rel := v]
             || (after == f + Graft(m, target) && target + rel in f && f[target + rel] == v)
    ensures after == f + Graft(m[rel := v], target)
  {
    CopyStep(f, m, rel, v, target);
    GraftMiss(f, m, target, rel);
    if after == f + Graft(m, target) && target + rel in f && f[target + rel] == v {
      assert after[target + rel := v] == after;
    }
  }

  /** How one merged file changed its place. */
  datatype Change = Added | Updated | Unchanged

  /** One step of the merge loop for the file `p` with source bytes `data`:
      create its parent directories, then add it, overwrite it when its bytes
      differ, or leave it. A directory at `p`, a regular file above it, or a
      refused write raises. */
  method MergeFile(fs: FileSystem, p: Path, data: Bytes) returns (r: Result<Change, FsError>)
    modifies fs
    ensures r.Ok? <==> old(fs.NoFileAbove(p)) && (if p in old(fs.files)
                                                   then old(fs.files)[p] == data || old(fs.CanWrite(p))
                                                   else !old(fs.Exists(p)) && old(fs.CanWrite(p)))
    ensures r.Ok? ==> fs.files == old(fs.files)[p := data]
    ensures r.Ok? ==> r.value == (if p !in old(fs.files) then Added
                                  else if old(fs.files)[p] != data then Updated
                                  else Unchanged)
    ensures r == Ok(Unchanged) ==> fs.files == old(fs.files)
    ensures old(fs.dirs) <= fs.dirs
    ensures r.Err? ==> fs.files == old(fs.files)
    ensures r.Err? ==> r.error in {AlreadyExists(Parent(p)), NotADirectory(Parent(p)), IsADirectory(p), WriteFailed(p)}
    ensures old(fs.Tidy()) ==> fs.Tidy()
    ensures old(fs.Tidy()) && p in old(fs.files) && old(fs.files)[p] == data ==> r == Ok(Unchanged)
  {
    if fs.Tidy() && p in fs.files {
      fs.TidyNoFileAbove(p);
    }
    ghost var canWrite := fs.CanWrite(p);
    ghost var present := fs.Exists(p);
    var made := fs.MakeParents(p);
    if made.Err? {
      return Err(made.error);
    }
    assert p != [] ==> fs.CanWrite(p) == canWrite && fs.Exists(p) == present by {
      if p != [] {
        assert |Parent(p)| < |p|;
      }
    }
    if p in fs.files {
      if fs.files[p] == data {
        assert fs.files[p := data] == fs.files;
        return Ok(Unchanged);
      }
      var ok := fs.WriteFile(p, data);
      if !ok {
        return Err(WriteFailed(p));
      }
      return Ok(Updated);
    }
    if fs.Exists(p) {
      return Err(IsADirectory(p));
    }
    var ok := fs.WriteFile(p, data);
    if !ok {
      return Err(WriteFailed(p));
    }
    return Ok(Added);
  }

  /** The loop of `merge_claude_folders` over the source files `inv` (walked
      in any order): skips preserved files, merges the others into `target`,
      counts what it did, and stops at the first error. */
  method MergeFiles(fs: FileSystem, inv: map<Path, Bytes>, target: Path, preserveLocal: bool) returns (rep: MergeReport)
    modifies fs
    ensures rep.conflicts == []
    ensures rep.success <==> rep.error.None?
    ensures rep.error.Some? ==> rep.error.value.Os?
    ensures rep.success ==> fs.files == old(fs.files) + Graft(Incoming(inv, preserveLocal), target)
    ensures rep.success ==> rep.filesAdded == |AddedFiles(old(fs.files), Incoming(inv, preserveLocal), target)|
                            && rep.filesUpdated == |UpdatedFiles(old(fs.files), Incoming(inv, preserveLocal), target)|
                            && rep.filesPreserved == |PreservedFiles(inv, preserveLocal)|
    ensures rep.filesAdded + rep.filesUpdated + rep.filesPreserved <= |inv|
    ensures old(fs.files).Keys <= fs.files.Keys
    ensures forall p :: p in fs.files ==>
              (p in old(fs.files) && fs.files[p] == old(fs.files)[p])
              || (p in Graft(Incoming(inv, preserveLocal), target) && fs.files[p] == Graft(Incoming(inv, preserveLocal), target)[p])
    ensures old(Settled(fs.files, Incoming(inv, preserveLocal), target)) ==>
              fs.files == old(fs.files) && rep.filesAdded == 0 && rep.filesUpdated == 0
    ensures old(fs.Tidy() && Settled(fs.files, Incoming(inv, preserveLocal), target)) ==> rep.success
    ensures old(fs.Tidy()) ==> fs.Tidy()
    ensures old(fs.dirs) <= fs.dirs
  {
    ghost var f0 := fs.files;
    ghost var inc := Incoming(inv, preserveLocal);
    ghost var todo;
    rep, todo := MergeLoop(fs, inv, target, preserveLocal);
    PartialMerge(f0, Done(inc, todo), inc, target);
    if rep.error.None? {
      DoneAll(inc);
      rep := rep.(success := true);
    }
  }

  /** The loop itself: on return `todo` holds the files not yet merged, none
      when no error stopped it, and the report describes the rest. */
  method MergeLoop(fs: FileSystem, inv: map<Path, Bytes>, target: Path, preserveLocal: bool)
    returns (rep: MergeReport, ghost todo: set<Path>)
    modifies fs
    ensures rep.error.None? ==> todo == {}
    ensures rep.error.Some? ==> rep.error.value.Os?
    ensures MergeLoopFacts(old(fs.files), inv, preserveLocal, target, old(Settled(fs.files, Incoming(inv, preserveLocal), target)),
                           old(fs.Tidy()), todo, fs.files, rep.(error := None), fs.Tidy())
    ensures old(fs.Tidy() && Settled(fs.files, Incoming(inv, preserveLocal), target)) ==> rep.error.None?
    ensures old(fs.dirs) <= fs.dirs
  {
    ghost var f0 := fs.files;
    ghost var inc := Incoming(inv, preserveLocal);
    ghost var settled := Settled(f0, inc, target);
    ghost var tidy := fs.Tidy();
    var left := inv.Keys;
    rep := MergeReport(false, 0, 0, 0, [], None);
    assert Done(inc, left) == map[];
    assert f0 + Graft(map[], target) == f0;
    while left != {}
      invariant MergeLoopFacts(f0, inv, preserveLocal, target, settled, tidy, left, fs.files, rep, fs.Tidy())
      invariant old(fs.dirs) <= fs.dirs
      decreases |left|
    {
      var rel :| rel in left;
      var next := MergeStep(fs, f0, inv, preserveLocal, target, settled, tidy, left, rel, rep);
      if next.error.Some? {
        return next, left;
      }
      rep := next;
      left := left - {rel};
    }
    todo := left;
  }

  /** One turn of the merge loop, for the source file `rel`: counts it as
      preserved, or merges it, or records the error that stops the loop. */
  method MergeStep(fs: FileSystem, ghost f0: map<Path, Bytes>, inv: map<Path, Bytes>, preserveLocal: bool, target: Path,
                   ghost settled: bool, ghost tidy: bool, ghost todo: set<Path>, rel: Path, rep: MergeReport)
    returns (next: MergeReport)
    requires rel in todo && settled == Settled(f0, Incoming(inv, preserveLocal), target)
    requires MergeLoopFacts(f0, inv, preserveLocal, target, settled, tidy, todo, fs.files, rep, fs.Tidy())
    modifies fs
    ensures next.error.None? ==> MergeLoopFacts(f0, inv, preserveLocal, target, settled, tidy, todo - {rel}, fs.files, next, fs.Tidy())
    ensures next.error.Some? ==> next.error.value.Os?
                                 && MergeLoopFacts(f0, inv, preserveLocal, target, settled, tidy, todo, fs.files, next.(error := None), fs.Tidy())
    ensures tidy && settled ==> next.error.None?
    ensures old(fs.dirs) <= fs.dirs
  {
    if preserveLocal && IsLocalSetting(rel) {
      PreservedFacts(f0, inv, preserveLocal, target, settled, tidy, todo, rel, fs.files, rep, fs.Tidy());
      return rep.(filesPreserved := rep.filesPreserved + 1);
    }
    ghost var files := fs.files;
    ghost var tidyNow := fs.Tidy();
    MergedFacts(f0, inv, preserveLocal, target, settled, tidy, todo, rel, files, rep, tidyNow);
    next := MergeOne(fs, inv, target, rel, rep);
    if next.error.None? {
      MergedFactsAfter(f0, inv, preserveLocal, target, settled, tidy, todo, rel, files, rep, tidyNow, fs.files, fs.Tidy(), next);
    }
  }

  /** Counting a preserved file keeps the loop's facts. */
  lemma PreservedFacts(f0: map<Path, Bytes>, inv: map<Path, Bytes>, preserveLocal: bool, target: Path,
                       settled: bool, tidy: bool, todo: set<Path>, rel: Path,
                       files: map<Path, Bytes>, rep: MergeReport, tidyNow: bool)
    requires rel in todo && preserveLocal && IsLocalSetting(rel)
    requires MergeLoopFacts(f0, inv, preserveLocal, target, settled, tidy, todo, files, rep, tidyNow)
    ensures MergeLoopFacts(f0, inv, preserveLocal, target, settled, tidy, todo - {rel}, files,
                           rep.(filesPreserved := rep.filesPreserved + 1), tidyNow)
  {
    assert |todo - {rel}| == |todo| - 1;
    PreservedProgress(f0, inv, preserveLocal, target, todo, rel, files, rep);
  }

  /** What the loop's facts give before merging the file `rel`. */
  lemma MergedFacts(f0: map<Path, Bytes>, inv: map<Path, Bytes>, preserveLocal: bool, target: Path,
                    settled: bool, tidy: bool, todo: set<Path>, rel: Path,
                    files: map<Path, Bytes>, rep: MergeReport, tidyNow: bool)
    requires rel in todo && settled == Settled(f0, Incoming(inv, preserveLocal), target) && !(preserveLocal && IsLocalSetting(rel))
    requires MergeLoopFacts(f0, inv, preserveLocal, target, settled, tidy, todo, files, rep, tidyNow)
    ensures rel in inv && rep.error.None? && (tidy ==> tidyNow)
    ensures settled ==> ChangeOf(files, target + rel, inv[rel]) == Unchanged
  {
    MergedProgress(f0, inv, preserveLocal, target, todo, rel, files, rep);
  }

  /** Merging the file `rel` keeps the loop's facts. */
  lemma MergedFactsAfter(f0: map<Path, Bytes>, inv: map<Path, Bytes>, preserveLocal: bool, target: Path,
                         settled: bool, tidy: bool, todo: set<Path>, rel: Path,
                         files: map<Path, Bytes>, rep: MergeReport, tidyNow: bool,
                         files': map<Path, Bytes>, tidyNext: bool, next: MergeReport)
    requires rel in todo && settled == Settled(f0, Incoming(inv, preserveLocal), target) && !(preserveLocal && IsLocalSetting(rel))
    requires MergeLoopFacts(f0, inv, preserveLocal, target, settled, tidy, todo, files, rep, tidyNow)
    requires var c := ChangeOf(files, target + rel, inv[rel]);
             next == Counted(rep, c) && files' == if c == Unchanged then files else files[target + rel := inv[rel]]
    requires tidyNow ==> tidyNext
    ensures MergeLoopFacts(f0, inv, preserveLocal, target, settled, tidy, todo - {rel}, files', next, tidyNext)
  {
    assert |todo - {rel}| == |todo| - 1;
    MergedProgress(f0, inv, preserveLocal, target, todo, rel, files, rep);
  }

  /** What the merge loop keeps besides `MergeProgress`: the counters never
      exceed the files walked, a settled target is left alone, and a tidy
      tree stays tidy. */
  ghost predicate MergeLoopFacts(f0: map<Path, Bytes>, inv: map<Path, Bytes>, preserveLocal: bool, target: Path,
                                 settled: bool, tidy: bool, left: set<Path>, files: map<Path, Bytes>, rep: MergeReport,
                                 tidyNow: bool)
  {
    left <= inv.Keys
    && MergeProgress(f0, inv, preserveLocal, target, left, files, rep)
    && rep.filesAdded + rep.filesUpdated + rep.filesPreserved + |left| <= |inv|
    && (settled ==> files == f0 && rep.filesAdded == 0 && rep.filesUpdated == 0)
    && (tidy ==> tidyNow)
  }

  /** Where a merge loop stands with `todo` left: the finished incoming files
      are in place and the counters describe them. */
  ghost predicate MergeProgress(f0: map<Path, Bytes>, inv: map<Path, Bytes>, preserveLocal: bool, target: Path,
                                todo: set<Path>, files: map<Path, Bytes>, rep: MergeReport)
  {
    var done := Done(Incoming(inv, preserveLocal), todo);
    files == f0 + Graft(done, target)
    && !rep.success && rep.conflicts == [] && rep.error.None?
    && rep.filesUpdated == |UpdatedFiles(f0, done, target)|
    && rep.filesAdded == |AddedFiles(f0, done, target)|
    && rep.filesPreserved == |PreservedFiles(inv, preserveLocal) - todo|
  }

  /** What writing `v` at `p` does to the tree `f`. */
  function ChangeOf(f: map<Path, Bytes>, p: Path, v: Bytes): Change {
    if p !in f then Added else if f[p] != v then Updated else Unchanged
  }

  /** The report after one more merged file. */
  function Counted(rep: MergeReport, c: Change): MergeReport {
    match c
    case Added => rep.(filesAdded := rep.filesAdded + 1)
    case Updated => rep.(filesUpdated := rep.filesUpdated + 1)
    case Unchanged => rep
  }

  /** Counting a preserved file moves the walk on by one. */
  lemma PreservedProgress(f0: map<Path, Bytes>, inv: map<Path, Bytes>, preserveLocal: bool, target: Path,
                          todo: set<Path>, rel: Path, files: map<Path, Bytes>, rep: MergeReport)
    requires rel in todo && todo <= inv.Keys && preserveLocal && IsLocalSetting(rel)
    requires MergeProgress(f0, inv, preserveLocal, target, todo, files, rep)
    ensures MergeProgress(f0, inv, preserveLocal, target, todo - {rel}, files, rep.(filesPreserved := rep.filesPreserved + 1))
  {
    var inc := Incoming(inv, preserveLocal);
    PreservedCount(inv, preserveLocal, todo, rel);
    DoneStep(inc, todo, rel);
  }

  /** Merging one more incoming file moves the walk on by one, and counts it
      by what it did to the tree; against a settled target it does nothing. */
  lemma MergedProgress(f0: map<Path, Bytes>, inv: map<Path, Bytes>, preserveLocal: bool, target: Path,
                       todo: set<Path>, rel: Path, files: map<Path, Bytes>, rep: MergeReport)
    requires rel in todo && todo <= inv.Keys && !(preserveLocal && IsLocalSetting(rel))
    requires MergeProgress(f0, inv, preserveLocal, target, todo, files, rep)
    ensures var c := ChangeOf(files, target + rel, inv[rel]);
            MergeProgress(f0, inv, preserveLocal, target, todo - {rel},
                          if c == Unchanged then files else files[target + rel := inv[rel]], Counted(rep, c))
    ensures Settled(f0, Incoming(inv, preserveLocal), target) && files == f0 ==>
              ChangeOf(files, target + rel, inv[rel]) == Unchanged
  {
    var inc := Incoming(inv, preserveLocal);
    var m := Done(inc, todo);
    var v := inv[rel];
    assert rel in inc && v == inc[rel];
    PreservedCount(inv, preserveLocal, todo, rel);
    DoneStep(inc, todo, rel);
    GraftMiss(f0, m, target, rel);
    AddedCount(f0, m, rel, v, target);
    UpdatedCount(f0, m, rel, v, target);
    var c := ChangeOf(files, target + rel, v);
    MergeStepFiles(f0, m, rel, v, target, if c == Unchanged then files else files[target + rel := v]);
  }

  /** Merges the source file `rel` into the tree, counting what happened,
      or records the error. */
  method MergeOne(fs: FileSystem, inv: map<Path, Bytes>, target: Path, rel: Path, rep: MergeReport) returns (next: MergeReport)
    requires rel in inv && rep.error.None?
    modifies fs
    ensures var c := ChangeOf(old(fs.files), target + rel, inv[rel]);
            next.error.None? ==> next == Counted(rep, c)
                                 && fs.files == if c == Unchanged then old(fs.files) else old(fs.files)[target + rel := inv[rel]]
    ensures next.error.Some? ==> fs.files == old(fs.files) && next == rep.(error := next.error) && next.error.value.Os?
    ensures old(fs.Tidy()) ==> fs.Tidy()
    ensures old(fs.dirs) <= fs.dirs
    ensures old(fs.Tidy()) && ChangeOf(old(fs.files), target + rel, inv[rel]) == Unchanged ==> next.error.None?
  {
    var res := MergeFile(fs, target + rel, inv[rel]);
    if res.Err? {
      return rep.(error := Some(Os(res.error)));
    }
    next := Counted(rep, res.value);
  }

  /** `merge_claude_folders`: merges the source folder into an existing
      `target` (see `MergeFiles`); a missing target is handed to
      `copy_claude_folder` with the parent of `target` as repository and no
      backup, so the copy lands in `<parent>/.claude` whatever the name of
      `target`. A missing source raises. */
  method MergeClaudeFolders(fs: FileSystem, source: Path, target: Path, preserveLocal: bool)
    returns (r: Result<MergeOutcome, Failure>)
    modifies fs
    ensures !old(fs.Exists(source)) ==> r == Err(FolderNotFound(source)) && fs.files == old(fs.files) && fs.dirs == old(fs.dirs)
    ensures old(fs.Exists(source)) ==> r.Ok? && (r.value.Copied? <==> !old(fs.Exists(target)))
    // the fall-back copy
    ensures r.Ok? && r.value.Copied? ==>
              var rep := r.value.copy;
              rep.source == source && rep.target == TargetFolder(Parent(target)) && !rep.backupCreated
              && rep.success == CopiedReport(fs, rep, TargetFolder(Parent(target)))
              && (!rep.success ==> FailedReport(rep))
    ensures r.Ok? && r.value.Copied? && target != [] && Name(target) == ClaudeDirName ==> r.value.copy.target == target
    ensures r.Ok? && r.value.Copied? ==>
              var T := TargetFolder(Parent(target));
              (r.value.copy.success ==>
                 Inventory(fs.files, T) == old(Inventory(fs.files, source))
                 && fs.files == Without(fs.files, T) + Graft(old(Inventory(fs.files, source)), T)
                 && Without(fs.files, T) == Without(old(fs.files), T)
                 && WithoutDirs(fs.dirs, T) == WithoutDirs(old(fs.dirs), T))
              && (!r.value.copy.success && !old(fs.Exists(T)) ==> Without(fs.files, T) == old(fs.files))
              && (old(fs.Exists(T)) ==> !r.value.copy.success && fs.files == old(fs.files) && fs.dirs == old(fs.dirs))
    // the merge
    ensures r.Ok? && r.value.Merged? ==>
              var rep := r.value.merge;
              var inc := Incoming(old(fs.Walk(source)), preserveLocal);
              rep.conflicts == [] && (rep.success <==> rep.error.None?)
              && (rep.success ==> fs.files == old(fs.files) + Graft(inc, target)
                                  && rep.filesAdded == |AddedFiles(old(fs.files), inc, target)|
                                  && rep.filesUpdated == |UpdatedFiles(old(fs.files), inc, target)|
                                  && rep.filesPreserved == |PreservedFiles(old(fs.Walk(source)), preserveLocal)|)
              && old(fs.files).Keys <= fs.files.Keys
              && (forall p :: p in fs.files ==>
                    (p in old(fs.files) && fs.files[p] == old(fs.files)[p])
                    || (p in Graft(inc, target) && fs.files[p] == Graft(inc, target)[p]))
              && (old(Settled(fs.files, inc, target)) ==> fs.files == old(fs.files) && rep.filesAdded == 0 && rep.filesUpdated == 0)
              && (old(fs.Tidy() && Settled(fs.files, inc, target)) ==> rep.success)
    ensures r.Ok? && r.value.Merged? ==> old(fs.dirs) <= fs.dirs && (old(fs.Tidy()) ==> fs.Tidy())
  {
    if !fs.Exists(source) {
      return Err(FolderNotFound(source));
    }
    if !fs.Exists(target) {
      // no backup is asked for, so no timestamp is ever used
      var c := CopyClaudeFolder(fs, source, Parent(target), false, 0);
      assert c.Ok?;
      if target != [] && Name(target) == ClaudeDirName {
        assert Parent(target) + [Name(target)] == target;
      }
      return Ok(Copied(c.value));
    }
    var inv := fs.Walk(source);
    var rep := MergeFiles(fs, inv, target, preserveLocal);
    return Ok(Merged(rep));
  }

  /** Merging the same source twice: the second merge brings nothing new,
      leaving the files as the first merge left them, and on a tidy disk it
      succeeds. */
  method MergeTwice(fs: FileSystem, source: Path, target: Path, preserveLocal: bool)
    returns (first: Result<MergeOutcome, Failure>, second: Result<MergeOutcome, Failure>)
    requires fs.IsDir(source) && fs.Exists(target) && Apart(source, target)
    modifies fs
    ensures first.Ok? && first.value.Merged?
    ensures first.value.merge.success ==>
              second.Ok? && second.value.Merged?
              && second.value.merge.filesAdded == 0 && second.value.merge.filesUpdated == 0
              && fs.files == old(fs.files) + Graft(Incoming(old(fs.Walk(source)), preserveLocal), target)
    ensures first.value.merge.success && old(fs.Tidy()) ==> second.value.merge.success
  {
    ghost var f0, d0 := fs.files, fs.dirs;
    ghost var inc := Incoming(fs.Walk(source), preserveLocal);
    ghost var targetWitness: Path :| targetWitness in f0.Keys + d0 && AtOrBelow(target, targetWitness);
    ghost var sourceWitness: Path :| sourceWitness in f0.Keys + d0 && AtOrBelow(source, sourceWitness) && (sourceWitness == source ==> source in d0);
    first := MergeClaudeFolders(fs, source, target, preserveLocal);
    if first.value.merge.success {
      WithoutGraft(f0, inc, target);
      InventoryApart(fs.files, f0, target, source);
      GraftSettles(f0, inc, target);
      assert fs.Exists(target) by {
        AtOrBelowSelf(target);
        assert targetWitness in fs.files.Keys + fs.dirs;
      }
      assert fs.IsDir(source) by {
        AtOrBelowSelf(source);
        assert source !in fs.files by {
          assert !AtOrBelow(target, source);
        }
        assert sourceWitness in fs.files.Keys + fs.dirs;
      }
    }
    second := MergeClaudeFolders(fs, source, target, preserveLocal);
  }

  /** A merge into a missing `.claude` target copies the source there; the
      next merge then finds the target, brings nothing new and leaves the
      files as the copy left them. */
  method CopyThenMerge(fs: FileSystem, source: Path, target: Path, preserveLocal: bool)
    returns (first: Result<MergeOutcome, Failure>, second: Result<MergeOutcome, Failure>)
    requires fs.IsDir(source) && !fs.Exists(target) && target != [] && Name(target) == ClaudeDirName && Apart(source, target)
    modifies fs
    ensures first.Ok? && first.value.Copied?
    ensures first.value.copy.success ==>
              second.Ok? && second.value.Merged?
              && second.value.merge.filesAdded == 0 && second.value.merge.filesUpdated == 0
              && Without(fs.files, target) == Without(old(fs.files), target)
              && fs.files == Without(fs.files, target) + Graft(old(Inventory(fs.files, source)), target)
  {
    ghost var f0, d0 := fs.files, fs.dirs;
    ghost var inv := Inventory(fs.files, source);
    ghost var sourceWitness: Path :| sourceWitness in fs.files.Keys + fs.dirs && AtOrBelow(source, sourceWitness) && (sourceWitness == source ==> source in fs.dirs);
    assert TargetFolder(Parent(target)) == target;
    first := MergeClaudeFolders(fs, source, target, preserveLocal);
    if first.value.copy.success {
      assert fs.Exists(target);
      IsDirApart(fs, f0, d0, source, target, sourceWitness);
      ghost var f1 := fs.files;
      InventoryApart(f1, f0, target, source);
      IncomingSettled(Without(f1, target), inv, preserveLocal, target);
    }
    second := MergeClaudeFolders(fs, source, target, preserveLocal);
  }

  /** A merge into a missing target not named `.claude` copies into the
      sibling `<parent>/.claude`; the target is then still missing, so the
      next merge copies again, finds that sibling in the way and fails
      without changing anything. */
  method CopyTwiceElsewhere(fs: FileSystem, source: Path, target: Path, preserveLocal: bool)
    returns (first: Result<MergeOutcome, Failure>, second: Result<MergeOutcome, Failure>)
    requires fs.Exists(source) && !fs.Exists(target) && target != [] && Name(target) != ClaudeDirName
    requires Apart(source, TargetFolder(Parent(target)))
    modifies fs
    ensures first.Ok? && first.value.Copied?
    ensures first.value.copy.success ==>
              second.Ok? && second.value.Copied? && !second.value.copy.success
              && Without(fs.files, TargetFolder(Parent(target))) == Without(old(fs.files), TargetFolder(Parent(target)))
              && fs.files == Without(fs.files, TargetFolder(Parent(target)))
                             + Graft(old(Inventory(fs.files, source)), TargetFolder(Parent(target)))
  {
    var t := TargetFolder(Parent(target));
    assert target == Parent(target) + [Name(target)];
    SiblingsApart(Parent(target), Name(target), ClaudeDirName);
    fs.NothingAtOrBelow(target);
    ghost var f0, d0 := fs.files, fs.dirs;
    ghost var sourceWitness: Path :| sourceWitness in fs.files.Keys + fs.dirs && AtOrBelow(source, sourceWitness);
    first := MergeClaudeFolders(fs, source, target, preserveLocal);
    if first.value.copy.success {
      ExistsApart(fs, f0, d0, source, t, sourceWitness);
      MissingApart(fs, f0, d0, target, t);
      assert fs.Exists(t);
    }
    second := MergeClaudeFolders(fs, source, target, preserveLocal);
  }

  /** Grafting a source inventory settles every file a merge of it brings. */
  lemma IncomingSettled(f: map<Path, Bytes>, inv: map<Path, Bytes>, preserveLocal: bool, target: Path)
    ensures Settled(f + Graft(inv, target), Incoming(inv, preserveLocal), target)
  {
    GraftSettles(f, inv, target);
  }

  // -----------------------------------------------------------------------
  // clean_claude_folder
  // -----------------------------------------------------------------------

  /** A `glob` pattern of the clean-up: `*<suffix>`, or one exact name. */
  datatype Pattern = Suffix(suffix: string) | Exact(name: string)

  /** Whether a file name matches a pattern; `*` also matches nothing and a
      leading dot. */
  predicate Matches(pat: Pattern, name: string) {
    match pat
    case Suffix(s) => EndsWith(name, s)
    case Exact(n) => name == n
  }

  /** The patterns removed, in the order they are processed. */
  function CleanPatterns(removeLocalSettings: bool): seq<Pattern> {
    [Suffix(".tmp"), Suffix(".cache"), Exact(".DS_Store"), Exact("Thumbs.db")]
    + (if removeLocalSettings then [Exact(LocalSettingsName)] else [])
  }

  predicate MatchesSome(pats: seq<Pattern>, name: string) {
    exists i :: 0 <= i < |pats| && Matches(pats[i], name)
  }

  /** The files below `claude` whose names match one of `pats`. */
  function Matching(files: map<Path, Bytes>, claude: Path, pats: seq<Pattern>): set<Path> {
    set p | p in files && Below(claude, p) && MatchesSome(pats, Name(p))
  }

  /** The files below `claude` whose names match `pat`. */
  function MatchingOne(files: map<Path, Bytes>, claude: Path, pat: Pattern): set<Path> {
    set p | p in files && Below(claude, p) && Matches(pat, Name(p))
  }

  /** The clean-up removes temporary and cache files and the two system
      droppings, and local settings only when asked to. */
  lemma CleanPatternsMeaning(removeLocalSettings: bool, name: string)
    ensures MatchesSome(CleanPatterns(removeLocalSettings), name) <==>
              EndsWith(name, ".tmp") || EndsWith(name, ".cache") || name == ".DS_Store" || name == "Thumbs.db"
              || (removeLocalSettings && name == LocalSettingsName)
  {
    var pats := CleanPatterns(removeLocalSettings);
    if EndsWith(name, ".tmp") { assert Matches(pats[0], name); }
    if EndsWith(name, ".cache") { assert Matches(pats[1], name); }
    if name == ".DS_Store" { assert Matches(pats[2], name); }
    if name == "Thumbs.db" { assert Matches(pats[3], name); }
    if removeLocalSettings && name == LocalSettingsName { assert Matches(pats[4], name); }
  }

  /** Matching one more pattern against what is left adds its matches. */
  lemma MatchingStep(f0: map<Path, Bytes>, claude: Path, pats: seq<Pattern>, i: nat)
    requires i < |pats|
    ensures Matching(f0, claude, pats[..i + 1])
            == Matching(f0, claude, pats[..i]) + MatchingOne(f0 - Matching(f0, claude, pats[..i]), claude, pats[i])
    ensures Matching(f0, claude, pats[..i]) !! MatchingOne(f0 - Matching(f0, claude, pats[..i]), claude, pats[i])
  {
    var before := Matching(f0, claude, pats[..i]);
    var after := Matching(f0, claude, pats[..i + 1]);
    var more := MatchingOne(f0 - before, claude, pats[i]);
    forall p | p in after
      ensures p in before + more
    {
      var j :| 0 <= j < i + 1 && Matches(pats[..i + 1][j], Name(p));
      if j < i {
        assert pats[..i][j] == pats[..i + 1][j];
      }
    }
    forall p | p in before + more
      ensures p in after
    {
      if p in before {
        var j :| 0 <= j < i && Matches(pats[..i][j], Name(p));
        assert pats[..i + 1][j] == pats[..i][j];
      } else {
        assert pats[..i + 1][i] == pats[i];
      }
    }
  }

  /** Unlinking one more match extends the removed set by it. */
  lemma RemovedOneMore(f: map<Path, Bytes>, matches: set<Path>, todo: set<Path>, p: Path)
    requires p in todo && todo <= matches && p in f
    ensures (f - (matches - todo)) - {p} == f - (matches - (todo - {p}))
    ensures |matches - (todo - {p})| == |matches - todo| + 1
    ensures TotalSize(Restrict(f, matches - (todo - {p}))) == TotalSize(Restrict(f, matches - todo)) + |f[p]|
  {
    assert matches - (todo - {p}) == (matches - todo) + {p};
    TotalSizeAdd(f, matches - todo, p);
  }

  /** The matches of one more pattern, taken from what is left, add their
      number and their bytes to the totals so far. */
  lemma CleanStepTotals(f0: map<Path, Bytes>, prior: set<Path>, more: set<Path>)
    requires prior <= f0.Keys && more <= f0.Keys && prior !! more
    ensures (f0 - prior) - more == f0 - (prior + more)
    ensures |prior + more| == |prior| + |more|
    ensures TotalSize(Restrict(f0, prior + more)) == TotalSize(Restrict(f0, prior)) + TotalSize(Restrict(f0 - prior, more))
  {
    assert Restrict(f0 - prior, more) == Restrict(f0, more);
    TotalSizeUnion(f0, prior, more);
  }

  /** A second clean-up finds nothing left to remove. */
  lemma CleanTwice(f0: map<Path, Bytes>, claude: Path, pats: seq<Pattern>)
    ensures Matching(f0 - Matching(f0, claude, pats), claude, pats) == {}
  {
  }

  const MissingFolderText: string := "Folder does not exist"

  /** The result dictionary of `clean_claude_folder`; the counters are absent
      when the folder is missing. */
  datatype CleanReport = CleanReport(success: bool, filesRemoved: Option<nat>, bytesFreed: Option<nat>, error: Option<string>)

  /** `clean_claude_folder`: deletes every file below the folder whose name
      matches a clean-up pattern, counting the files and their bytes; every
      other file stays as it was. */
  method CleanClaudeFolder(fs: FileSystem, claude: Path, removeLocalSettings: bool) returns (r: CleanReport)
    modifies fs
    ensures !old(fs.Exists(claude)) ==>
              r == CleanReport(false, None, None, Some(MissingFolderText)) && fs.files == old(fs.files) && fs.dirs == old(fs.dirs)
    ensures old(fs.Exists(claude)) ==>
              var doomed := if old(fs.IsDir(claude)) then Matching(old(fs.files), claude, CleanPatterns(removeLocalSettings)) else {};
              r == CleanReport(true, Some(|doomed|), Some(TotalSize(Restrict(old(fs.files), doomed))), None)
              && fs.files == old(fs.files) - doomed
    ensures old(fs.dirs) <= fs.dirs
  {
    if !fs.Exists(claude) {
      return CleanReport(false, None, None, Some(MissingFolderText));
    }
    var removed, freed := RemoveAllPatterns(fs, claude, CleanPatterns(removeLocalSettings));
    r := CleanReport(true, Some(removed), Some(freed), None);
  }

  /** What the pattern loop has done after its first `i` patterns: when the
      folder is a directory, every file matched so far is gone and counted;
      otherwise nothing happened. */
  ghost predicate CleanProgress(f0: map<Path, Bytes>, claude: Path, pats: seq<Pattern>, i: nat, isDir: bool,
                                files: map<Path, Bytes>, removed: nat, freed: nat)
    requires i <= |pats|
  {
    if isDir then
      var doomed := Matching(f0, claude, pats[..i]);
      files == f0 - doomed && removed == |doomed| && freed == TotalSize(Restrict(f0, doomed))
    else
      files == f0 && removed == 0 && freed == 0
  }

  /** The loop over the patterns, in order, adding up what each removes. */
  method RemoveAllPatterns(fs: FileSystem, claude: Path, pats: seq<Pattern>) returns (removed: nat, freed: nat)
    modifies fs
    ensures var doomed := if old(fs.IsDir(claude)) then Matching(old(fs.files), claude, pats) else {};
            removed == |doomed| && freed == TotalSize(Restrict(old(fs.files), doomed)) && fs.files == old(fs.files) - doomed
    ensures old(fs.dirs) <= fs.dirs
  {
    ghost var f0 := fs.files;
    ghost var isDir := fs.IsDir(claude);
    removed, freed := 0, 0;
    assert Matching(f0, claude, pats[..0]) == {};
    assert Restrict(f0, {}) == map[];
    assert f0 - {} == f0;
    for i := 0 to |pats|
      invariant isDir == fs.IsDir(claude)
      invariant CleanProgress(f0, claude, pats, i, isDir, fs.files, removed, freed)
      invariant old(fs.dirs) <= fs.dirs
    {
      removed, freed := CleanStep(fs, claude, f0, pats, i, isDir, removed, freed);
    }
    assert pats[..|pats|] == pats;
  }

  /** One turn of the pattern loop. */
  method CleanStep(fs: FileSystem, claude: Path, ghost f0: map<Path, Bytes>, pats: seq<Pattern>, i: nat, ghost isDir: bool,
                   removed0: nat, freed0: nat) returns (removed: nat, freed: nat)
    requires i < |pats| && isDir == fs.IsDir(claude)
    requires CleanProgress(f0, claude, pats, i, isDir, fs.files, removed0, freed0)
    modifies fs
    ensures isDir == fs.IsDir(claude)
    ensures CleanProgress(f0, claude, pats, i + 1, isDir, fs.files, removed, freed)
    ensures old(fs.dirs) <= fs.dirs
  {
    if isDir {
      ghost var prior := Matching(f0, claude, pats[..i]);
      MatchingStep(f0, claude, pats, i);
      CleanStepTotals(f0, prior, MatchingOne(fs.files, claude, pats[i]));
    }
    removed, freed := RemoveMatches(fs, claude, pats[i], removed0, freed0);
  }

  /** One pattern of the clean-up: `claude.rglob(pattern)` (nothing when
      `claude` is not a directory), unlinking every matching file and adding
      to the counters. */
  method RemoveMatches(fs: FileSystem, claude: Path, pat: Pattern, removed0: nat, freed0: nat) returns (removed: nat, freed: nat)
    modifies fs
    ensures var more := if old(fs.IsDir(claude)) then MatchingOne(old(fs.files), claude, pat) else {};
            fs.files == old(fs.files) - more
            && removed == removed0 + |more| && freed == freed0 + TotalSize(Restrict(old(fs.files), more))
    ensures old(fs.IsDir(claude)) ==> fs.IsDir(claude)
    ensures !old(fs.IsDir(claude)) ==> fs.dirs == old(fs.dirs)
    ensures old(fs.dirs) <= fs.dirs
  {
    if !fs.IsDir(claude) {
      assert fs.files - {} == fs.files;
      assert Restrict(fs.files, {}) == map[];
      return removed0, freed0;
    }
    var matches := set p | p in fs.files && Below(claude, p) && Matches(pat, Name(p));
    assert matches == MatchingOne(fs.files, claude, pat);
    removed, freed := UnlinkAll(fs, claude, matches, removed0, freed0);
  }

  /** The unlinking loop of one pattern, over its matches in any order. */
  method UnlinkAll(fs: FileSystem, claude: Path, matches: set<Path>, removed0: nat, freed0: nat) returns (removed: nat, freed: nat)
    requires fs.IsDir(claude) && matches <= fs.files.Keys
    requires forall p :: p in matches ==> Below(claude, p)
    modifies fs
    ensures fs.files == old(fs.files) - matches
    ensures removed == removed0 + |matches| && freed == freed0 + TotalSize(Restrict(old(fs.files), matches))
    ensures fs.IsDir(claude)
    ensures old(fs.dirs) <= fs.dirs
  {
    ghost var f := fs.files;
    removed, freed := removed0, freed0;
    var todo := matches;
    assert f - (matches - todo) == f;
    assert Restrict(f, matches - todo) == map[];
    while todo != {}
      invariant todo <= matches
      invariant fs.files == f - (matches - todo)
      invariant removed == removed0 + |matches - todo|
      invariant freed == freed0 + TotalSize(Restrict(f, matches - todo))
      invariant fs.IsDir(claude)
      invariant old(fs.dirs) <= fs.dirs
      decreases |todo|
    {
      var p :| p in todo;
      var size := |fs.files[p]|;
      RemovedOneMore(f, matches, todo, p);
      removed, freed := removed + 1, freed + size;
      fs.Unlink(p);
      ParentAtOrBelow(claude, p);
      fs.HoldsDir(claude, Parent(p));
      todo := todo - {p};
    }
    assert matches - todo == matches;
  }

  // ---------------------------------------------------------------------
  // get_repository_root / is_git_repository
  // ---------------------------------------------------------------------

  /** `(dir / ".git").exists()`: a directory or a file both count. */
  predicate HasGit(fs: FileSystem, dir: Path)
    reads fs
  {
    fs.Exists(dir + [GitDirName])
  }

  /** The nearest directory at or above `p`, other than the filesystem root,
      holding a `.git` entry. */
  function RepositoryRoot(fs: FileSystem, p: Path): Option<Path>
    reads fs
    decreases |p|
  {
    if p == [] then None
    else if HasGit(fs, p) then Some(p)
    else RepositoryRoot(fs, Parent(p))
  }

  /** The root found is an ancestor of `p` (or `p` itself) with a `.git`
      entry and no nearer ancestor has one; no root is found exactly when no
      ancestor below the filesystem root has one. The filesystem root itself
      is never examined. */
  lemma {:induction false} RepositoryRootMeaning(fs: FileSystem, p: Path)
    ensures var r := RepositoryRoot(fs, p);
            r.Some? ==> 0 < |r.value| <= |p| && p[..|r.value|] == r.value && HasGit(fs, r.value)
                        && forall n :: |r.value| < n <= |p| ==> !HasGit(fs, p[..n])
    ensures RepositoryRoot(fs, p).None? <==> forall n :: 0 < n <= |p| ==> !HasGit(fs, p[..n])
    decreases |p|
  {
    if p == [] {
    } else if HasGit(fs, p) {
      assert p[..|p|] == p;
    } else {
      var q := Parent(p);
      RepositoryRootMeaning(fs, q);
      assert forall n :: 0 < n <= |q| ==> q[..n] == p[..n];
      assert p[..|p|] == p;
      var r := RepositoryRoot(fs, q);
      if r.Some? {
        assert p[..|r.value|] == q[..|r.value|];
      }
    }
  }

  /** `get_repository_root`: walks `current` upward while it differs from its
      parent, stopping at the first directory holding `.git`. */
  method GetRepositoryRoot(fs: FileSystem, path: Path) returns (r: Option<Path>)
    ensures r == RepositoryRoot(fs, path)
  {
    var current := path;
    while current != Parent(current)
      invariant RepositoryRoot(fs, current) == RepositoryRoot(fs, path)
      decreases |current|
    {
      if HasGit(fs, current) {
        return Some(current);
      }
      current := Parent(current);
    }
    assert current == [];
    return None;
  }

  /** `is_git_repository`: some directory at or above `path`, short of the
      filesystem root, holds a `.git` entry. */
  method IsGitRepository(fs: FileSystem, path: Path) returns (b: bool)
    ensures b <==> exists n :: 0 < n <= |path| && HasGit(fs, path[..n])
  {
    var root := GetRepositoryRoot(fs, path);
    RepositoryRootMeaning(fs, path);
    b := root.Some?;
  }
}
