/** The main window's git operations: running one git command
    (`run_git_command`), publishing a new version (`version_and_push`),
    committing the selected files (`commit_only`) and reloading the file
    and tag lists (`refresh_file_list`, `load_tags`). git itself is an
    oracle: a function from a command line to what running it gives. */
module Publish {
  import opened PyText
  import opened Seqs
  import opened Listings

  /** What `subprocess.run` gives for one command: the process finished
      with an exit code and its captured output, or the call raised. */
  datatype GitResult =
    | Completed(returncode: int, stdout: string, stderr: string)
    | Raised(message: string)

  /** The answer `run_git_command` reduces a result to: `True`, or the
      error text it returns in its place. */
  datatype Status = Done | Failed(message: string)

  /** The text `run_git_command` shows and inspects: stdout followed by
      stderr. */
  function Output(r: GitResult): string
    requires r.Completed?
  {
    r.stdout + r.stderr
  }

  /** `run_git_command`'s result: done exactly when git exited with 0; a
      failed run gives its trimmed output, a raised call its message. */
  function StatusOf(r: GitResult): (s: Status)
    ensures s.Done? <==> r.Completed? && r.returncode == 0
    ensures r.Raised? ==> s == Failed(r.message)
  {
    match r
    case Raised(message) => Failed(message)
    case Completed(code, _, _) => if code != 0 then Failed(Strip(Output(r))) else Done
  }

  /** A failing git reports its output without the surrounding whitespace:
      an empty report exactly when the output is blank. */
  lemma FailureMessage(r: GitResult)
    requires r.Completed? && r.returncode != 0
    ensures StatusOf(r).Failed?
    ensures |StatusOf(r).message| <= |Output(r)|
    ensures StatusOf(r).message == [] <==> AllSpace(Output(r))
  {
    StripTrims(Output(r));
  }

  /** A failing git whose output, stdout and stderr read as one text, is
      one message padded with whitespace reports exactly that message,
      wherever the message sits (git usually writes its errors to
      stderr, with stdout empty). */
  lemma FailureReportsMessage(code: int, out: string, err: string, pre: string, message: string, post: string)
    requires code != 0
    requires out + err == pre + message + post
    requires AllSpace(pre) && AllSpace(post)
    requires message != [] ==> !IsSpace(message[0]) && !IsSpace(message[|message| - 1])
    ensures StatusOf(Completed(code, out, err)) == Failed(message)
  {
    StripPadded(pre, message, post);
  }

  /** The usual shape: git fails with its message on stderr alone. */
  lemma StderrFailure()
    ensures StatusOf(Completed(128, "", "fatal: x\n")) == Failed("fatal: x")
  {
    assert "" + "fatal: x\n" == [] + "fatal: x" + "\n";
    FailureReportsMessage(128, "", "fatal: x\n", [], "fatal: x", "\n");
  }

  /** What the output area shows, entry by entry. */
  datatype LogEntry =
    | SelectProjectAndManifest    // "Select a project folder and package.json first."
    | NeedVersionAndMessage       // "You must enter both the new version and commit message."
    | VersionUpdated(previous: Option<Json>, current: string)
    | ManifestFailed              // "Failed to update package.json: ..."
    | Echo(command: seq<string>, output: string)   // "$ CMD\nOUTPUT\n"
    | GitError(message: string)   // "Error: ..."
    | Published                   // "Version updated, committed, tagged and pushed successfully!"
    | NoProjectFolder             // "No project folder selected."
    | NeedCommitMessage           // "Enter a commit message before committing."
    | NoFilesSelected             // "No files selected to commit."
    | CommittedNotPushed          // "Files committed, but NOT pushed."
    | ListFilesFailed(message: string)
    | SelectProjectFirst          // "Select a project folder first."
    | TagsRefreshed
    | TagsFailed(message: string)

  /** What `run_git_command` adds to the output area: the command and its
      output when the process ran, nothing when the call raised. */
  function EchoOf(command: seq<string>, r: GitResult): seq<LogEntry> {
    if r.Completed? then [Echo(command, Output(r))] else []
  }

  // ---------------------------------------------------------------------
  // Publishing a version

  /** The commands `version_and_push` runs, in order: stage the manifest,
      commit, tag `v` + version, push, and push the tags when asked to. */
  function PublishCommands(version: string, message: string, pushTags: bool): (cmds: seq<seq<string>>)
    ensures |cmds| == if pushTags then 5 else 4
    ensures cmds[0] == ["git", "add", "package.json"]
    ensures cmds[1] == ["git", "commit", "-m", message]
    ensures cmds[2] == ["git", "tag", "v" + version]
    ensures cmds[3] == ["git", "push"]
    ensures pushTags ==> cmds[4] == ["git", "push", "--tags"]
  {
    [["git", "add", "package.json"], ["git", "commit", "-m", message], ["git", "tag", "v" + version], ["git", "push"]]
    + (if pushTags then [["git", "push", "--tags"]] else [])
  }

  /** Where a run of commands that stops at the first failure ends. */
  datatype RunOutcome = AllDone | StoppedAt(index: nat, message: string)

  /** Run the commands in order until one fails. */
  function RunSequence(cmds: seq<seq<string>>, run: seq<string> -> GitResult): RunOutcome
  {
    if cmds == [] then AllDone
    else match StatusOf(run(cmds[0]))
      case Failed(message) => StoppedAt(0, message)
      case Done =>
        match RunSequence(cmds[1..], run)
        case AllDone => AllDone
        case StoppedAt(k, message) => StoppedAt(k + 1, message)
  }

  /** Either every command is done, or the run stops at the first one that
      fails, with its error text, after every earlier one is done. */
  lemma {:induction false} RunSequenceFirstFailure(cmds: seq<seq<string>>, run: seq<string> -> GitResult)
    ensures RunSequence(cmds, run).AllDone? <==>
      forall j :: 0 <= j < |cmds| ==> StatusOf(run(cmds[j])).Done?
    ensures RunSequence(cmds, run).StoppedAt? ==>
      var o := RunSequence(cmds, run);
      o.index < |cmds|
      && StatusOf(run(cmds[o.index])) == Failed(o.message)
      && forall j :: 0 <= j < o.index ==> StatusOf(run(cmds[j])).Done?
  {
    if cmds != [] && StatusOf(run(cmds[0])).Done? {
      RunSequenceFirstFailure(cmds[1..], run);
      assert forall j :: 1 <= j < |cmds| ==> cmds[j] == cmds[1..][j - 1];
    }
  }

  /** The number of commands a run starts. */
  function Started(cmds: seq<seq<string>>, o: RunOutcome): nat {
    if o.StoppedAt? && o.index < |cmds| then o.index + 1 else |cmds|
  }

  /** What the output area gains from running the commands until the
      first failure: the echo of each command started, then the failure's
      error text or the success message. */
  function RunReport(cmds: seq<seq<string>>, run: seq<string> -> GitResult, success: LogEntry): seq<LogEntry> {
    var outcome := RunSequence(cmds, run);
    Transcript(cmds[..Started(cmds, outcome)], run)
      + (if outcome.StoppedAt? then [GitError(outcome.message)] else [success])
  }

  /** What the output area gains from the git half of `version_and_push`:
      the report of the commands, then, after a full success, the reports of
      reloading the tags and the file list. */
  function PushReport(cmds: seq<seq<string>>, run: seq<string> -> GitResult): seq<LogEntry> {
    RunReport(cmds, run, Published)
      + (if RunSequence(cmds, run).AllDone? then TagsLog(run(TagListCommand)) + ListingLog(run(StatusCommand)) else [])
  }

  /** The report of a push after some earlier entries, entry by entry:
      after a full success, the echoes, the success message and the
      reloads' reports; otherwise the echoes of the commands started and
      the error. */
  lemma PushReportAfter(earlier: seq<LogEntry>, cmds: seq<seq<string>>, run: seq<string> -> GitResult)
    ensures RunSequence(cmds, run).AllDone? ==>
      earlier + PushReport(cmds, run)
        == earlier + Transcript(cmds, run) + [Published] + TagsLog(run(TagListCommand)) + ListingLog(run(StatusCommand))
    ensures RunSequence(cmds, run).StoppedAt? ==>
      var o := RunSequence(cmds, run);
      o.index < |cmds|
      && earlier + PushReport(cmds, run)
        == earlier + Transcript(cmds[..o.index + 1], run) + [GitError(o.message)]
  {
    if RunSequence(cmds, run).AllDone? {
      PushReportDone(earlier, cmds, run);
    } else {
      PushReportStopped(earlier, cmds, run);
    }
  }

  lemma PushReportDone(earlier: seq<LogEntry>, cmds: seq<seq<string>>, run: seq<string> -> GitResult)
    requires RunSequence(cmds, run).AllDone?
    ensures earlier + PushReport(cmds, run)
         == earlier + Transcript(cmds, run) + [Published] + TagsLog(run(TagListCommand)) + ListingLog(run(StatusCommand))
  {
    assert cmds[..Started(cmds, AllDone)] == cmds;
    var t, tags, files := Transcript(cmds, run), TagsLog(run(TagListCommand)), ListingLog(run(StatusCommand));
    assert PushReport(cmds, run) == t + [Published] + (tags + files);
    AppendAssoc(t + [Published], tags, files);
    AppendAssoc(earlier, t + [Published] + tags, files);
    AppendAssoc(earlier, t + [Published], tags);
    AppendAssoc(earlier, t, [Published]);
  }

  lemma PushReportStopped(earlier: seq<LogEntry>, cmds: seq<seq<string>>, run: seq<string> -> GitResult)
    requires RunSequence(cmds, run).StoppedAt?
    ensures
      var o := RunSequence(cmds, run);
      o.index < |cmds|
      && earlier + PushReport(cmds, run)
        == earlier + Transcript(cmds[..o.index + 1], run) + [GitError(o.message)]
  {
    var o := RunSequence(cmds, run);
    StoppedReport(cmds, run);
    AppendAssoc(earlier, Transcript(cmds[..o.index + 1], run), [GitError(o.message)]);
  }

  /** A push that stops reports the echoes of the commands started and the
      error, and reloads nothing. */
  lemma StoppedReport(cmds: seq<seq<string>>, run: seq<string> -> GitResult)
    requires RunSequence(cmds, run).StoppedAt?
    ensures
      var o := RunSequence(cmds, run);
      o.index < |cmds|
      && PushReport(cmds, run) == Transcript(cmds[..o.index + 1], run) + [GitError(o.message)]
  {
    var o := RunSequence(cmds, run);
    RunSequenceFirstFailure(cmds, run);
    assert Started(cmds, o) == o.index + 1;
    var report := Transcript(cmds[..o.index + 1], run) + [GitError(o.message)];
    assert RunReport(cmds, run, Published) == report;
    assert PushReport(cmds, run) == report + [];
  }

  /** The output area's entries for the commands that were started. */
  function Transcript(cmds: seq<seq<string>>, run: seq<string> -> GitResult): seq<LogEntry> {
    if cmds == [] then []
    else Transcript(cmds[..|cmds| - 1], run) + EchoOf(cmds[|cmds| - 1], run(cmds[|cmds| - 1]))
  }

  /** The transcript of one more command is the transcript so far and that
      command's echo. */
  lemma TranscriptStep(cmds: seq<seq<string>>, i: nat, run: seq<string> -> GitResult)
    requires i < |cmds|
    ensures Transcript(cmds[..i + 1], run) == Transcript(cmds[..i], run) + EchoOf(cmds[i], run(cmds[i]))
  {
    assert cmds[..i + 1][..i] == cmds[..i];
  }

  /** The output area after one more command: what it held before that
      command, then its echo. */
  lemma LogStep(earlier: seq<LogEntry>, cmds: seq<seq<string>>, i: nat, run: seq<string> -> GitResult)
    requires i < |cmds|
    ensures earlier + Transcript(cmds[..i + 1], run)
         == (earlier + Transcript(cmds[..i], run)) + EchoOf(cmds[i], run(cmds[i]))
  {
    TranscriptStep(cmds, i, run);
    AppendAssoc(earlier, Transcript(cmds[..i], run), EchoOf(cmds[i], run(cmds[i])));
  }

  /** A run in which every command is done completes. */
  lemma AllDoneWhenEveryDone(cmds: seq<seq<string>>, run: seq<string> -> GitResult)
    requires forall j :: 0 <= j < |cmds| ==> StatusOf(run(cmds[j])).Done?
    ensures RunSequence(cmds, run) == AllDone
  {
    RunSequenceFirstFailure(cmds, run);
  }

  /** A run whose commands before `i` are done and whose command `i` fails
      stops at `i`. */
  lemma {:induction false} RunSequenceStops(cmds: seq<seq<string>>, i: nat, run: seq<string> -> GitResult)
    requires i < |cmds| && StatusOf(run(cmds[i])).Failed?
    requires forall j :: 0 <= j < i ==> StatusOf(run(cmds[j])).Done?
    ensures RunSequence(cmds, run) == StoppedAt(i, StatusOf(run(cmds[i])).message)
  {
    if i > 0 {
      assert StatusOf(run(cmds[0])).Done?;
      forall j | 0 <= j < i - 1 ensures StatusOf(run(cmds[1..][j])).Done? {
        assert cmds[1..][j] == cmds[j + 1];
      }
      RunSequenceStops(cmds[1..], i - 1, run);
    }
  }

  /** Running the same commands twice against the same repository answer
      stops at the same place: a push that fails leaves no later command
      run, and a command that is never started cannot change the
      outcome. */
  lemma {:induction false} RunSequenceIgnoresLater(cmds: seq<seq<string>>, later: seq<seq<string>>, run: seq<string> -> GitResult)
    requires RunSequence(cmds, run).StoppedAt?
    ensures RunSequence(cmds + later, run) == RunSequence(cmds, run)
  {
    assert cmds != [];
    assert (cmds + later)[0] == cmds[0];
    if StatusOf(run(cmds[0])).Done? {
      assert (cmds + later)[1..] == cmds[1..] + later;
      RunSequenceIgnoresLater(cmds[1..], later, run);
    }
  }

  /** Pushing the tags or not does not change whether the first four
      commands stop, nor where. */
  lemma PushTagsOnlyAppends(version: string, message: string, run: seq<string> -> GitResult)
    ensures PublishCommands(version, message, true)
         == PublishCommands(version, message, false) + [["git", "push", "--tags"]]
    ensures RunSequence(PublishCommands(version, message, false), run).StoppedAt? ==>
      RunSequence(PublishCommands(version, message, true), run)
        == RunSequence(PublishCommands(version, message, false), run)
  {
    var base := PublishCommands(version, message, false);
    assert PublishCommands(version, message, true) == base + [["git", "push", "--tags"]];
    if RunSequence(base, run).StoppedAt? {
      RunSequenceIgnoresLater(base, [["git", "push", "--tags"]], run);
    }
  }

  /** The loaded manifest with its `version` field set, or None when
      loading or the update raises: an unreadable file or a document that
      is not a JSON object. */
  function SetVersion(manifest: Option<Json>, version: string): (r: Option<Json>)
    ensures r.Some? <==> manifest.Some? && manifest.value.Object?
    ensures r.Some? ==>
      r.value.Object?
      && "version" in r.value.fields && r.value.fields["version"] == Str(version)
      && r.value.fields.Keys == manifest.value.fields.Keys + {"version"}
      && forall key :: key in manifest.value.fields && key != "version" ==>
           r.value.fields[key] == manifest.value.fields[key]
  {
    match manifest
    case Some(Object(fields)) => Some(Object(fields["version" := Str(version)]))
    case _ => None
  }

  /** Writing the same version again changes nothing. */
  lemma SetVersionIdempotent(manifest: Option<Json>, version: string)
    requires manifest.Some? && manifest.value.Object?
    ensures SetVersion(SetVersion(manifest, version), version) == SetVersion(manifest, version)
  {
    var fields := manifest.value.fields;
    assert fields["version" := Str(version)]["version" := Str(version)] == fields["version" := Str(version)];
  }

  /** Why `version_and_push` stops before running git, if it does: no
      project or no manifest chosen, an empty version or message (after
      trimming), or a manifest it cannot load and update. */
  function PublishRefusal(projectDir: string, packageJsonPath: string, version: string,
                          message: string, manifest: Option<Json>): (r: Option<LogEntry>)
    ensures r.None? <==>
      projectDir != [] && packageJsonPath != [] && version != [] && message != []
      && manifest.Some? && manifest.value.Object?
    ensures r.Some? ==> r.value in {SelectProjectAndManifest, NeedVersionAndMessage, ManifestFailed}
    ensures r == Some(SelectProjectAndManifest) <==> projectDir == [] || packageJsonPath == []
    ensures r == Some(NeedVersionAndMessage) <==>
      projectDir != [] && packageJsonPath != [] && (version == [] || message == [])
    ensures r == Some(ManifestFailed) <==>
      projectDir != [] && packageJsonPath != [] && version != [] && message != []
      && !(manifest.Some? && manifest.value.Object?)
  {
    if projectDir == [] || packageJsonPath == [] then Some(SelectProjectAndManifest)
    else if version == [] || message == [] then Some(NeedVersionAndMessage)
    else if SetVersion(manifest, version).None? then Some(ManifestFailed)
    else None
  }

  /** The manifest's version before the update, if it has one. */
  function PreviousVersion(manifest: Json): Option<Json>
    requires manifest.Object?
  {
    if "version" in manifest.fields then Some(manifest.fields["version"]) else None
  }

  // ---------------------------------------------------------------------
  // Committing the selected files

  /** The entries of the file list at the selected indices, in selection
      order. */
  function SelectedFiles(fileList: seq<string>, selection: seq<nat>): (files: seq<string>)
    requires forall k :: 0 <= k < |selection| ==> selection[k] < |fileList|
    ensures |files| == |selection|
    ensures forall k :: 0 <= k < |files| ==> files[k] == fileList[selection[k]]
  {
    seq(|selection|, k requires 0 <= k < |selection| => fileList[selection[k]])
  }

  /** The two commands `commit_only` runs: stage the files, then commit. */
  function CommitCommands(files: seq<string>, message: string): seq<seq<string>> {
    [["git", "add"] + files, ["git", "commit", "-m", message]]
  }

  /** The report of `commit_only`'s two commands, case by case. */
  lemma CommitReport(files: seq<string>, message: string, run: seq<string> -> GitResult)
    ensures
      var cmds := CommitCommands(files, message);
      var add, commit := StatusOf(run(cmds[0])), StatusOf(run(cmds[1]));
      var echoAdd, echoCommit := EchoOf(cmds[0], run(cmds[0])), EchoOf(cmds[1], run(cmds[1]));
      RunReport(cmds, run, CommittedNotPushed)
        == if add.Failed? then echoAdd + [GitError(add.message)]
           else if commit.Failed? then echoAdd + (echoCommit + [GitError(commit.message)])
           else echoAdd + (echoCommit + [CommittedNotPushed])
  {
    var cmds := CommitCommands(files, message);
    var echoAdd := EchoOf(cmds[0], run(cmds[0]));
    TranscriptStep(cmds, 0, run);
    assert Transcript(cmds[..0], run) == [];
    assert [] + echoAdd == echoAdd;
    if StatusOf(run(cmds[0])).Failed? {
      RunSequenceStops(cmds, 0, run);
    } else {
      CommitReportStaged(cmds, run, echoAdd);
    }
  }

  lemma CommitReportStaged(cmds: seq<seq<string>>, run: seq<string> -> GitResult, echoAdd: seq<LogEntry>)
    requires |cmds| == 2 && StatusOf(run(cmds[0])).Done?
    requires Transcript(cmds[..1], run) == echoAdd
    ensures
      var commit := StatusOf(run(cmds[1]));
      var echoCommit := EchoOf(cmds[1], run(cmds[1]));
      RunReport(cmds, run, CommittedNotPushed)
        == if commit.Failed? then echoAdd + (echoCommit + [GitError(commit.message)])
           else echoAdd + (echoCommit + [CommittedNotPushed])
  {
    var echoCommit := EchoOf(cmds[1], run(cmds[1]));
    TranscriptStep(cmds, 1, run);
    if StatusOf(run(cmds[1])).Failed? {
      RunSequenceStops(cmds, 1, run);
      AppendAssoc(echoAdd, echoCommit, [GitError(StatusOf(run(cmds[1])).message)]);
    } else {
      RunSequenceFirstFailure(cmds, run);
      assert cmds[..2] == cmds;
      AppendAssoc(echoAdd, echoCommit, [CommittedNotPushed]);
    }
  }

  /** Why `commit_only` stops before running git, if it does: no project,
      an empty message (after trimming), or no file selected. */
  function CommitRefusal(projectDir: string, message: string, files: seq<string>): (r: Option<LogEntry>)
    ensures r.None? <==> projectDir != [] && message != [] && files != []
    ensures r.Some? ==> r.value in {NoProjectFolder, NeedCommitMessage, NoFilesSelected}
    ensures r == Some(NoProjectFolder) <==> projectDir == []
    ensures r == Some(NeedCommitMessage) <==> projectDir != [] && message == []
    ensures r == Some(NoFilesSelected) <==> projectDir != [] && message != [] && files == []
  {
    if projectDir == [] then Some(NoProjectFolder)
    else if message == [] then Some(NeedCommitMessage)
    else if files == [] then Some(NoFilesSelected)
    else None
  }

  /** `commit_only` commits only what it staged: the commit runs only after
      the files are staged, and a failed staging stops before the commit. */
  lemma CommitAfterStaging(files: seq<string>, message: string, run: seq<string> -> GitResult)
    ensures RunSequence(CommitCommands(files, message), run) == AllDone <==>
      StatusOf(run(["git", "add"] + files)).Done? && StatusOf(run(["git", "commit", "-m", message])).Done?
    ensures StatusOf(run(["git", "add"] + files)).Failed? ==>
      RunSequence(CommitCommands(files, message), run)
        == StoppedAt(0, StatusOf(run(["git", "add"] + files)).message)
  {
    var cmds := CommitCommands(files, message);
    RunSequenceFirstFailure(cmds, run);
    if StatusOf(run(cmds[0])).Failed? {
      RunSequenceStops(cmds, 0, run);
    }
  }

  // ---------------------------------------------------------------------
  // Reloading the file and tag lists

  /** The commands behind `refresh_file_list` and `load_tags`. */
  const StatusCommand := ["git", "status", "--porcelain"]
  const TagListCommand := ["git", "tag", "--list"]

  /** The file list after `refresh_file_list` read this result: the paths
      of the porcelain output, read without the strip that truncates the
      first one (PorcelainFirstPathTruncated), or the old list when the
      call raised. git's exit code is not inspected. */
  function ListedFiles(r: GitResult, current: seq<string>): seq<string> {
    if r.Completed? then PorcelainPaths(r.stdout) else current
  }

  /** Whatever git's exit code, a listing of changed entries is read back
      as exactly their paths, in order. */
  lemma ListedFilesAreChanged(entries: seq<StatusEntry>, code: int, stderr: string, current: seq<string>)
    requires forall k :: 0 <= k < |entries| ==> OnOneLine(entries[k])
    ensures ListedFiles(Completed(code, PorcelainOutput(entries), stderr), current) == Map(entries, EntryPath)
  {
    PorcelainPathsRoundTrip(entries);
  }

  function ListingLog(r: GitResult): seq<LogEntry> {
    if r.Raised? then [ListFilesFailed(r.message)] else []
  }

  /** The tag the tag box shows once `load_tags` has listed `tags`: the
      last tag listed, or the one it showed before when none is. */
  function TagSelection(tags: seq<string>, current: string): string {
    if tags != [] then tags[|tags| - 1] else current
  }

  /** What `load_tags` does with this result for a selected project: the
      tags it offers, the tag it shows and its report. */
  function OfferedTags(r: GitResult, current: seq<string>): seq<string> {
    if r.Completed? then StrippedLines(r.stdout) else current
  }

  function ShownTag(r: GitResult, current: string): string {
    if r.Completed? then TagSelection(StrippedLines(r.stdout), current) else current
  }

  function TagsLog(r: GitResult): seq<LogEntry> {
    if r.Completed? then [TagsRefreshed] else [TagsFailed(r.message)]
  }

  /** After a listing of tags as `git tag --list` prints them, the tag box
      shows the last one (that it offers exactly those tags is lemma
      TagListRoundTrip). */
  lemma LoadTagsSelectsLast(tags: seq<string>, current: string)
    requires tags != [] && forall k :: 0 <= k < |tags| ==> TagName(tags[k])
    ensures TagSelection(StrippedLines(Join(tags, "\n") + "\n"), current) == tags[|tags| - 1]
  {
    TagListRoundTrip(tags);
    LastListed(tags, current);
  }

  lemma LastListed(tags: seq<string>, current: string)
    requires tags != []
    ensures TagSelection(tags, current) == tags[|tags| - 1]
  {
  }

  /** The loop of `refresh_file_list`: each non-empty line, without its
      first three characters, in order. */
  method PathsOfLines(lines: seq<string>) returns (files: seq<string>)
    ensures files == Map(Filter(lines, NonEmpty), PathOfLine)
  {
    files := [];
    var i := 0;
    while i < |lines|
      invariant 0 <= i <= |lines|
      invariant files == Map(Filter(lines[..i], NonEmpty), PathOfLine)
    {
      var line := lines[i];
      assert lines[..i + 1] == lines[..i] + [line];
      FilterAppend(lines[..i], [line], NonEmpty);
      assert [line][1..] == [];
      MapAppend(Filter(lines[..i], NonEmpty), Filter([line], NonEmpty), PathOfLine);
      if line != [] {
        assert Map([line], PathOfLine) == [PathOfLine(line)] by {
          assert [line][1..] == [];
        }
        files := files + [DropFirst(line, 3)];
      }
      i := i + 1;
    }
    assert lines[..i] == lines;
  }

  // ---------------------------------------------------------------------
  // The main window

  class GitApp {
    var projectDir: string
    var packageJsonPath: string
    /** The text in the new version entry. */
    var newVersion: string
    /** The text in the commit message entry. */
    var commitMessage: string
    /** Whether "push tags" is ticked. */
    var pushTags: bool
    /** The version shown as current. */
    var currentVersion: string
    /** package.json as JSON, or None when it cannot be read or parsed. */
    var manifest: Option<Json>
    /** The files the file list box shows. */
    var fileList: seq<string>
    /** The tags the tag box offers, and the one it shows. */
    var tagValues: seq<string>
    var selectedTag: string
    /** The output area, entry by entry. */
    var log: seq<LogEntry>

    /** `__init__`: no project, empty entries, "push tags" ticked. */
    constructor ()
      ensures projectDir == [] && packageJsonPath == [] && newVersion == [] && commitMessage == []
      ensures pushTags && currentVersion == [] && manifest == None
      ensures fileList == [] && tagValues == [] && selectedTag == [] && log == []
    {
      projectDir := [];
      packageJsonPath := [];
      newVersion := [];
      commitMessage := [];
      pushTags := true;
      currentVersion := [];
      manifest := None;
      fileList := [];
      tagValues := [];
      selectedTag := [];
      log := [];
    }

    /** `run_git_command`: run one command, echo it with its output when
        the process ran, and reduce the result to a status. */
    method RunGitCommand(command: seq<string>, run: seq<string> -> GitResult) returns (status: Status)
      modifies this`log
      ensures status == StatusOf(run(command))
      ensures log == old(log) + EchoOf(command, run(command))
    {
      var r := run(command);
      if r.Completed? {
        log := log + [Echo(command, Output(r))];
      }
      status := StatusOf(r);
    }

    /** Run the commands until the first failure, echoing each one run;
        on a failure, report it. */
    method RunUntilFailure(cmds: seq<seq<string>>, run: seq<string> -> GitResult) returns (outcome: RunOutcome)
      modifies this`log
      ensures outcome == RunSequence(cmds, run)
      ensures outcome.AllDone? ==> log == old(log) + Transcript(cmds, run)
      ensures outcome.StoppedAt? ==>
        outcome.index < |cmds|
        && log == old(log) + Transcript(cmds[..outcome.index + 1], run) + [GitError(outcome.message)]
    {
      var i := 0;
      while i < |cmds|
        invariant 0 <= i <= |cmds|
        invariant forall j :: 0 <= j < i ==> StatusOf(run(cmds[j])).Done?
        invariant log == old(log) + Transcript(cmds[..i], run)
      {
        var status := RunGitCommand(cmds[i], run);
        LogStep(old(log), cmds, i, run);
        if status.Failed? {
          RunSequenceStops(cmds, i, run);
          log := log + [GitError(status.message)];
          outcome := StoppedAt(i, status.message);
          return;
        }
        i := i + 1;
      }
      assert cmds[..i] == cmds;
      AllDoneWhenEveryDone(cmds, run);
      outcome := AllDone;
    }

    /** The git half of `version_and_push`: run the commands until the
        first failure and report how they ended; after a full success,
        reload the tags and the file list. */
    method PushAndRefresh(cmds: seq<seq<string>>, run: seq<string> -> GitResult) returns (outcome: RunOutcome)
      requires projectDir != []
      modifies this`log, this`tagValues, this`selectedTag, this`fileList
      ensures outcome == RunSequence(cmds, run)
      ensures outcome.AllDone? ==>
        log == old(log) + Transcript(cmds, run) + [Published]
          + TagsLog(run(TagListCommand)) + ListingLog(run(StatusCommand))
        && tagValues == OfferedTags(run(TagListCommand), old(tagValues))
        && selectedTag == ShownTag(run(TagListCommand), old(selectedTag))
        && fileList == ListedFiles(run(StatusCommand), old(fileList))
      ensures outcome.StoppedAt? ==>
        outcome.index < |cmds|
        && log == old(log) + Transcript(cmds[..outcome.index + 1], run) + [GitError(outcome.message)]
        && tagValues == old(tagValues) && selectedTag == old(selectedTag) && fileList == old(fileList)
    {
      outcome := RunUntilFailure(cmds, run);
      if outcome.AllDone? {
        log := log + [Published];
        ReloadLists(run);
      }
    }

    /** The reloads after a successful push: `load_tags`, then
        `refresh_file_list`. */
    method ReloadLists(run: seq<string> -> GitResult)
      requires projectDir != []
      modifies this`log, this`tagValues, this`selectedTag, this`fileList
      ensures log == old(log) + TagsLog(run(TagListCommand)) + ListingLog(run(StatusCommand))
      ensures tagValues == OfferedTags(run(TagListCommand), old(tagValues))
      ensures selectedTag == ShownTag(run(TagListCommand), old(selectedTag))
      ensures fileList == ListedFiles(run(StatusCommand), old(fileList))
    {
      LoadTags(run(TagListCommand));
      RefreshFileList(run(StatusCommand));
    }

    /** `version_and_push` once its checks have passed: set the version in
        the manifest and report it, then push. */
    method PublishVersion(version: string, message: string, withTags: bool, run: seq<string> -> GitResult)
      requires projectDir != [] && manifest.Some? && manifest.value.Object?
      modifies this`manifest, this`currentVersion, this`log
      modifies this`tagValues, this`selectedTag, this`fileList
      ensures manifest == SetVersion(old(manifest), version)
      ensures currentVersion == version
      ensures
        var cmds := PublishCommands(version, message, withTags);
        var done := RunSequence(cmds, run).AllDone?;
        log == old(log) + [VersionUpdated(PreviousVersion(old(manifest).value), version)] + PushReport(cmds, run)
        && tagValues == (if done then OfferedTags(run(TagListCommand), old(tagValues)) else old(tagValues))
        && selectedTag == (if done then ShownTag(run(TagListCommand), old(selectedTag)) else old(selectedTag))
        && fileList == (if done then ListedFiles(run(StatusCommand), old(fileList)) else old(fileList))
    {
      var previous := PreviousVersion(manifest.value);
      manifest := SetVersion(manifest, version);
      currentVersion := version;
      log := log + [VersionUpdated(previous, version)];
      var cmds := PublishCommands(version, message, withTags);
      PushReportAfter(log, cmds, run);
      var outcome := PushAndRefresh(cmds, run);
    }

    /** `version_and_push`. */
    method VersionAndPush(run: seq<string> -> GitResult)
      modifies this`manifest, this`currentVersion, this`log
      modifies this`tagValues, this`selectedTag, this`fileList
      ensures
        var refusal := PublishRefusal(old(projectDir), old(packageJsonPath),
          Strip(old(newVersion)), Strip(old(commitMessage)), old(manifest));
        refusal.Some? ==>
          log == [refusal.value] && manifest == old(manifest) && currentVersion == old(currentVersion)
          && tagValues == old(tagValues) && selectedTag == old(selectedTag) && fileList == old(fileList)
      ensures
        var version := Strip(old(newVersion));
        var cmds := PublishCommands(version, Strip(old(commitMessage)), old(pushTags));
        var done := RunSequence(cmds, run).AllDone?;
        PublishRefusal(old(projectDir), old(packageJsonPath), version, Strip(old(commitMessage)), old(manifest)).None? ==>
          manifest == SetVersion(old(manifest), version)
          && currentVersion == version
          && log == [VersionUpdated(PreviousVersion(old(manifest).value), version)] + PushReport(cmds, run)
          && tagValues == (if done then OfferedTags(run(TagListCommand), old(tagValues)) else old(tagValues))
          && selectedTag == (if done then ShownTag(run(TagListCommand), old(selectedTag)) else old(selectedTag))
          && fileList == (if done then ListedFiles(run(StatusCommand), old(fileList)) else old(fileList))
    {
      var version := Strip(newVersion);
      var message := Strip(commitMessage);
      var refusal := PublishRefusal(projectDir, packageJsonPath, version, message, manifest);
      log := [];
      if refusal.Some? {
        log := [refusal.value];
        return;
      }
      PublishVersion(version, message, pushTags, run);
    }

    /** `refresh_file_list`: list the changed files from
        `git status --porcelain`, or report that the call raised. */
    method RefreshFileList(r: GitResult)
      modifies this`fileList, this`log
      ensures fileList == ListedFiles(r, old(fileList))
      ensures log == old(log) + ListingLog(r)
    {
      if r.Raised? {
        log := log + [ListFilesFailed(r.message)];
        return;
      }
      var files := PathsOfLines(Split(r.stdout, '\n'));
      fileList := files;
    }

    /** `load_tags`: offer the tags `git tag --list` printed and show the
        last one; it needs a project, and reports a call that raised. */
    method LoadTags(r: GitResult)
      modifies this`tagValues, this`selectedTag, this`log
      ensures old(projectDir) == [] ==>
        log == old(log) + [SelectProjectFirst]
        && tagValues == old(tagValues) && selectedTag == old(selectedTag)
      ensures old(projectDir) != [] ==>
        log == old(log) + TagsLog(r)
        && tagValues == OfferedTags(r, old(tagValues))
        && selectedTag == ShownTag(r, old(selectedTag))
    {
      if projectDir == [] {
        log := log + [SelectProjectFirst];
        return;
      }
      if r.Raised? {
        log := log + [TagsFailed(r.message)];
        return;
      }
      var tags := StrippedLines(r.stdout);
      tagValues := tags;
      if tags != [] {
        selectedTag := tags[|tags| - 1];
      }
      log := log + [TagsRefreshed];
    }

    /** `commit_only` once its checks have passed: stage the files, then
        commit; a failed staging stops there, otherwise the file list is
        reloaded. */
    method CommitFiles(files: seq<string>, message: string, run: seq<string> -> GitResult)
      modifies this`fileList, this`log
      ensures
        var staged := StatusOf(run(["git", "add"] + files)).Done?;
        log == old(log) + RunReport(CommitCommands(files, message), run, CommittedNotPushed)
          + (if staged then ListingLog(run(StatusCommand)) else [])
        && fileList == (if staged then ListedFiles(run(StatusCommand), old(fileList))
                        else old(fileList))
    {
      var staged := StageAndCommit(files, message, run);
      if staged {
        RefreshFileList(run(StatusCommand));
      }
    }

    /** The two git commands of `commit_only`, each reported as it ends; the
        commit runs only after a successful staging. */
    method StageAndCommit(files: seq<string>, message: string, run: seq<string> -> GitResult)
      returns (staged: bool)
      modifies this`log
      ensures staged == StatusOf(run(["git", "add"] + files)).Done?
      ensures log == old(log) + RunReport(CommitCommands(files, message), run, CommittedNotPushed)
    {
      var cmds := CommitCommands(files, message);
      CommitReport(files, message, run);
      var status := RunGitCommand(cmds[0], run);
      var echoAdd := EchoOf(cmds[0], run(cmds[0]));
      staged := status.Done?;
      if status.Failed? {
        log := log + [GitError(status.message)];
        AppendAssoc(old(log), echoAdd, [GitError(status.message)]);
        return;
      }
      status := RunGitCommand(cmds[1], run);
      var echoCommit := EchoOf(cmds[1], run(cmds[1]));
      var last := if status.Failed? then GitError(status.message) else CommittedNotPushed;
      log := log + [last];
      AppendAssoc(old(log) + echoAdd, echoCommit, [last]);
      AppendAssoc(old(log), echoAdd, echoCommit + [last]);
    }

    /** `commit_only`: commit the files selected in the file list with the
        trimmed message. The selection holds indices of the list, as the
        list box reports them. */
    method CommitOnly(selection: seq<nat>, run: seq<string> -> GitResult)
      requires forall k :: 0 <= k < |selection| ==> selection[k] < |fileList|
      modifies this`fileList, this`log
      ensures
        var files := SelectedFiles(old(fileList), selection);
        var refusal := CommitRefusal(old(projectDir), Strip(old(commitMessage)), files);
        refusal.Some? ==> log == old(log) + [refusal.value] && fileList == old(fileList)
      ensures
        var files := SelectedFiles(old(fileList), selection);
        var message := Strip(old(commitMessage));
        var staged := StatusOf(run(["git", "add"] + files)).Done?;
        CommitRefusal(old(projectDir), message, files).None? ==>
          log == old(log) + RunReport(CommitCommands(files, message), run, CommittedNotPushed)
            + (if staged then ListingLog(run(StatusCommand)) else [])
          && fileList == (if staged then ListedFiles(run(StatusCommand), old(fileList))
                          else old(fileList))
    {
      var message := Strip(commitMessage);
      var files := SelectedFiles(fileList, selection);
      var refusal := CommitRefusal(projectDir, message, files);
      if refusal.Some? {
        log := log + [refusal.value];
        return;
      }
      CommitFiles(files, message, run);
    }
  }
}
