/** Message formatting for the command-line front end. The loosely typed
    result dictionary becomes `Details`, one optional field per key the
    formatters look at; `None` is a missing key. A flag counts as set when it
    is present and true (Python truthiness); a path counts as set when present. */
module Output {
  import opened Wrappers
  import opened Strings
  import opened Paths

  datatype Details = Details(
    targetPath: Option<string>,
    freshDeploy: Option<bool>,
    filesCopied: Option<nat>,
    bytesCopied: Option<nat>,
    filesUpdated: Option<nat>,
    filesAdded: Option<nat>,
    filesPreserved: Option<nat>,
    backupCreated: Option<bool>,
    backupPath: Option<Path>,
    configSaved: Option<bool>,
    configFile: Option<Path>)

  predicate IsSet(flag: Option<bool>) {
    flag == Some(true)
  }

  const ErrorPrefix: string := "ERROR: "
  const DeployedText: string := "Successfully deployed .claude folder to "
  const UpdatedText: string := "Successfully updated .claude folder in "
  const GenericSuccess: string := "Operation completed successfully"
  const DryRunPrefix: string := "   [DRY RUN] Would "
  const ConfigWarning: string := "Warning: Could not save/update configuration"
  const ConfigSavedText: string := "Configuration saved: "
  const ConfigUpdatedText: string := "Configuration updated: "
  const DryRunConfigCreated: string := "   [DRY RUN] Configuration file created: "
  const DryRunConfigFails: string := "   [DRY RUN] Configuration file creation would fail"
  const BackupLinePrefix: string := "   Backup created: "

  /** `format_error_message`: the message behind a fixed prefix, recoverable from it. */
  function FormatErrorMessage(error: string): (r: string)
    ensures StartsWith(r, ErrorPrefix) && r[|ErrorPrefix|..] == error
  {
    ErrorPrefix + error
  }

  /** `details.get("target_path", "")`. */
  function TargetText(d: Details): string {
    match d.targetPath
    case Some(t) => t
    case None => ""
  }

  /** `format_success_message`. */
  function FormatSuccessMessage(operation: string, d: Details): (r: string)
    ensures StartsWith(r, DeployedText) <==> operation == "deploy" || (operation == "update" && IsSet(d.freshDeploy))
    ensures StartsWith(r, UpdatedText) <==> operation == "update" && !IsSet(d.freshDeploy)
    ensures operation == "deploy" || operation == "update" ==> EndsWith(r, TargetText(d))
    ensures operation != "deploy" && operation != "update" ==> r == GenericSuccess
  {
    var target := TargetText(d);
    assert DeployedText[13] != UpdatedText[13];
    var r :=
      if operation == "deploy" then DeployedText + target
      else if operation == "update" then
        (if IsSet(d.freshDeploy) then DeployedText + target else UpdatedText + target)
      else GenericSuccess;
    assert (r == DeployedText + target || r == UpdatedText + target) ==> r[|r| - |target|..] == target;
    assert StartsWith(GenericSuccess, DeployedText) == false by { assert GenericSuccess[0] != DeployedText[0]; }
    assert StartsWith(GenericSuccess, UpdatedText) == false by { assert GenericSuccess[0] != UpdatedText[0]; }
    r
  }

  /** A fresh deployment reported by an update reads exactly like a deployment. */
  lemma FreshUpdateReadsAsDeploy(d: Details)
    requires IsSet(d.freshDeploy)
    ensures FormatSuccessMessage("update", d) == FormatSuccessMessage("deploy", d)
  {
  }

  /** `format_dry_run_message`: "to" when the action mentions deploying,
      "in" otherwise; the bare action when no target path is given. */
  function FormatDryRunMessage(action: string, targetPath: string): (r: string)
    ensures StartsWith(r, DryRunPrefix + action)
    ensures targetPath == "" ==> r == DryRunPrefix + action
    ensures targetPath != "" ==> (EndsWith(r, " to " + targetPath) <==> Contains(action, "deploy"))
    ensures targetPath != "" ==> (EndsWith(r, " in " + targetPath) <==> !Contains(action, "deploy"))
  {
    var head := DryRunPrefix + action;
    if targetPath != "" then
      var preposition := if Contains(action, "deploy") then "to" else "in";
      var r := head + " .claude folder " + preposition + " " + targetPath;
      assert r == head + " .claude folder" + (" " + preposition + " " + targetPath);
      assert r[..|head|] == head;
      DryRunEnding(head + " .claude folder", preposition, targetPath);
      r
    else
      head
  }

  /** The text after the fixed part decides which preposition a message ends with. */
  lemma DryRunEnding(head: string, preposition: string, target: string)
    requires preposition == "to" || preposition == "in"
    ensures var r := head + (" " + preposition + " " + target);
            (EndsWith(r, " to " + target) <==> preposition == "to")
            && (EndsWith(r, " in " + target) <==> preposition == "in")
  {
    var r := head + (" " + preposition + " " + target);
    var n := |target| + 4;
    assert r[|r| - n..] == " " + preposition + " " + target;
    assert (" " + preposition + " " + target)[1] == preposition[0];
    assert (" to " + target)[1] == 't';
    assert (" in " + target)[1] == 'i';
  }

  // ---------------------------------------------------------------------
  // format_operation_details
  // ---------------------------------------------------------------------

  /** One detail line, `"   <caption>: <n>"`, or nothing when the key is absent. */
  function CountLine(caption: string, n: Option<nat>): seq<string> {
    match n
    case Some(v) => [caption + NatToString(v)]
    case None => []
  }

  /** Whether the result counts as a fresh copy: a deployment, or an update
      that turned into one. */
  predicate IsCopyReport(operation: string, d: Details) {
    operation == "deploy" || IsSet(d.freshDeploy)
  }

  /** The counter lines, in the order the source emits them. */
  function CounterLines(operation: string, d: Details): seq<string> {
    if IsCopyReport(operation, d) then
      CountLine("   Files copied: ", d.filesCopied) + CountLine("   Bytes copied: ", d.bytesCopied)
    else if operation == "update" then
      CountLine("   Files updated: ", d.filesUpdated) + CountLine("   Files added: ", d.filesAdded)
      + CountLine("   Files preserved: ", d.filesPreserved)
    else []
  }

  /** The backup line is shown when a backup was created and its path is known. */
  predicate ShowsBackup(d: Details) {
    IsSet(d.backupCreated) && d.backupPath.Some?
  }

  function BackupLine(p: Path): string {
    BackupLinePrefix + Name(p)
  }

  /** `format_operation_details`: builds the list by appending, line by line. */
  method FormatOperationDetails(operation: string, d: Details) returns (lines: seq<string>)
    ensures lines == CounterLines(operation, d) + (if ShowsBackup(d) then [BackupLine(d.backupPath.value)] else [])
  {
    lines := [];
    if IsCopyReport(operation, d) {
      if d.filesCopied.Some? {
        lines := lines + ["   Files copied: " + NatToString(d.filesCopied.value)];
      }
      if d.bytesCopied.Some? {
        lines := lines + ["   Bytes copied: " + NatToString(d.bytesCopied.value)];
      }
    } else if operation == "update" {
      if d.filesUpdated.Some? {
        lines := lines + ["   Files updated: " + NatToString(d.filesUpdated.value)];
      }
      if d.filesAdded.Some? {
        lines := lines + ["   Files added: " + NatToString(d.filesAdded.value)];
      }
      if d.filesPreserved.Some? {
        lines := lines + ["   Files preserved: " + NatToString(d.filesPreserved.value)];
      }
    }
    if ShowsBackup(d) {
      lines := lines + [BackupLine(d.backupPath.value)];
    }
  }

  /** No counter line looks like the backup line. */
  lemma CounterLinesAreNotBackupLines(operation: string, d: Details)
    ensures forall k :: 0 <= k < |CounterLines(operation, d)| ==>
              !StartsWith(CounterLines(operation, d)[k], BackupLinePrefix)
  {
    var lines := CounterLines(operation, d);
    forall k | 0 <= k < |lines|
      ensures !StartsWith(lines[k], BackupLinePrefix)
    {
      assert lines[k][3] == 'F' || lines[k][3] == 'B';
      if lines[k][3] == 'B' {
        assert lines[k][4] == 'y';
      }
      assert BackupLinePrefix[3] == 'B' && BackupLinePrefix[4] == 'a';
    }
  }

  /** The backup line is present, and then last, exactly when a backup was
      created and its path is known; it names only the last path component. */
  lemma BackupLineLast(operation: string, d: Details, lines: seq<string>)
    requires lines == CounterLines(operation, d) + (if ShowsBackup(d) then [BackupLine(d.backupPath.value)] else [])
    ensures ShowsBackup(d) <==> |lines| > 0 && StartsWith(lines[|lines| - 1], BackupLinePrefix)
    ensures ShowsBackup(d) ==> lines[|lines| - 1] == BackupLinePrefix + Name(d.backupPath.value)
    ensures forall k :: 0 <= k < |lines| - 1 ==> !StartsWith(lines[k], BackupLinePrefix)
  {
    CounterLinesAreNotBackupLines(operation, d);
    var counters := CounterLines(operation, d);
    assert forall k :: 0 <= k < |counters| ==> lines[k] == counters[k];
  }

  /** A copy report shows only the copied-files and copied-bytes counters,
      each exactly when present. */
  lemma CopyReportShowsCopyCounters(operation: string, d: Details)
    requires IsCopyReport(operation, d)
    ensures |CounterLines(operation, d)| == (if d.filesCopied.Some? then 1 else 0) + (if d.bytesCopied.Some? then 1 else 0)
    ensures forall k :: 0 <= k < |CounterLines(operation, d)| ==>
              StartsWith(CounterLines(operation, d)[k], "   Files copied: ")
              || StartsWith(CounterLines(operation, d)[k], "   Bytes copied: ")
  {
  }

  /** An update report lists updated, added and preserved, in that order. */
  lemma UpdateReportOrder(d: Details, u: nat, a: nat, p: nat)
    requires !IsSet(d.freshDeploy)
    requires d.filesUpdated == Some(u) && d.filesAdded == Some(a) && d.filesPreserved == Some(p)
    ensures CounterLines("update", d) == ["   Files updated: " + NatToString(u),
                                         "   Files added: " + NatToString(a),
                                         "   Files preserved: " + NatToString(p)]
  {
  }

  /** Any other operation reports no counters. */
  lemma OtherOperationNoCounters(operation: string, d: Details)
    requires operation != "deploy" && operation != "update" && !IsSet(d.freshDeploy)
    ensures CounterLines(operation, d) == []
  {
  }

  // ---------------------------------------------------------------------
  // configuration messages
  // ---------------------------------------------------------------------

  /** `format_config_message`. */
  function FormatConfigMessage(d: Details, operation: string): (r: string)
    ensures r == ConfigWarning <==> !IsSet(d.configSaved)
    ensures IsSet(d.configSaved) && d.configFile.Some? ==>
              r == (if IsCopyReport(operation, d) then ConfigSavedText else ConfigUpdatedText) + Name(d.configFile.value)
    ensures IsSet(d.configSaved) && d.configFile.None? ==> r == ""
  {
    if IsSet(d.configSaved) && d.configFile.Some? then
      var r := (if IsCopyReport(operation, d) then ConfigSavedText else ConfigUpdatedText) + Name(d.configFile.value);
      assert r[0] != ConfigWarning[0];
      r
    else if !IsSet(d.configSaved) then ConfigWarning
    else ""
  }

  /** `format_dry_run_config_message`. */
  function FormatDryRunConfigMessage(configCreated: bool, configFile: Option<Path>): (r: string)
    ensures configCreated && configFile.Some? ==> r == DryRunConfigCreated + Name(configFile.value)
    ensures r == DryRunConfigFails <==> !(configCreated && configFile.Some?)
  {
    if configCreated && configFile.Some? then
      var r := DryRunConfigCreated + Name(configFile.value);
      assert r[37] != DryRunConfigFails[37];
      r
    else DryRunConfigFails
  }
}
