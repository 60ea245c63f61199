/** The backup decision of the update flow. `BackupManager` only remembers
    the directory that holds `.claude`; its copy step is still a placeholder
    that reports a fixed path, so that is all it is modelled to do. The
    user's reply to the confirmation prompt is an input. */
module Backup {
  import opened Wrappers
  import opened Paths
  import opened Disk

  const BackupRootName: string := ".claude-backup"
  const PlaceholderName: string := "placeholder"
  const MissingClaudeText: string := ".claude folder does not exist"

  /** What the user typed at the yes/no prompt: `None` is an empty reply,
      which takes the default. */
  type Reply = Option<bool>

  /** The outcome of `should_create_backup`: the decision, and whether the
      user was asked at all. */
  datatype Decision = Decision(backup: bool, prompted: bool)

  /** The result record of `create_claude_backup`; a missing key is `None`. */
  datatype BackupResult = BackupResult(success: bool, backupPath: Option<Path>, error: Option<string>)

  datatype BackupManager = BackupManager(targetPath: Path) {

    /** `should_create_backup`: the flag wins without a prompt; otherwise the
        user decides, and an empty reply means yes. */
    function ShouldCreateBackup(noBackup: bool, reply: Reply): (d: Decision)
      ensures d.prompted <==> !noBackup
      ensures noBackup ==> !d.backup
      ensures !noBackup ==> (d.backup <==> reply != Some(false))
    {
      if noBackup then Decision(false, false)
      else Decision(match reply case Some(yes) => yes case None => true, true)
    }

    /** `create_claude_backup`: fails when `target/.claude` is missing;
        otherwise reports success and a path inside `target/.claude-backup`,
        which lies outside the folder being protected. */
    function CreateClaudeBackup(fs: FileSystem): (r: BackupResult)
      reads fs
      ensures r.success <==> fs.Exists(targetPath + [".claude"])
      ensures !r.success ==> r.backupPath == None && r.error == Some(MissingClaudeText)
      ensures r.success ==> r.error == None && r.backupPath.Some?
                            && Parent(r.backupPath.value) == targetPath + [BackupRootName]
                            && !AtOrBelow(targetPath + [".claude"], r.backupPath.value)
    {
      if !fs.Exists(targetPath + [".claude"]) then
        BackupResult(false, None, Some(MissingClaudeText))
      else
        var b := targetPath + [BackupRootName, PlaceholderName];
        assert b[|targetPath|] == BackupRootName != ".claude";
        BackupResult(true, Some(b), None)
    }
  }
}
