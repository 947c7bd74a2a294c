# git_version_push in Dafny

`git_version_push.py` is a Tkinter front end for a Node project kept in git
and hosted on GitHub. It sets the version in `package.json`, then commits,
tags and pushes. It commits the selected files, lists the changed files and
the tags, and picks `package.json` among candidates. Its dashboard reads
the GitHub owner and repository from the `origin` URL, lists issues without
pull requests, opens and closes issues, and shows a notification badge.

This project models the logic behind those features and proves what it
promises:

- `pytext.dfy` (module `PyText`) holds the Python string operations the
  program relies on: `strip`, `lower`, `find`, `in`, `endswith`, `split`,
  `join`, `replace(pat, '')` and `str(n)`. Each comes with the laws the
  rest of the model uses. `StripRight` is a helper of `Strip`, and
  `DecimalValue`, which reads decimal text back, is the inverse of
  `str(n)`. It also holds the `Option` and `Json` datatypes.
- `seqs.dfy` (module `Seqs`) holds list comprehensions, as filter and map
  over sequences.
- `remote.dfy` (module `Remote`) holds the parser of remote URLs and the
  guard at the top of the dashboard's `refresh`.
- `listings.dfy` (module `Listings`) covers:
  - the issue list without pull requests;
  - the picker's filter;
  - reading `git status --porcelain` and `git tag --list`;
  - the notification badge;
  - the open/close guard of `_set_issue_state`.
- `picker.dfy` (module `Picker`) is the `PackageJsonFinder` dialog, as a
  class whose fields the methods update.
- `publish.dfy` (module `Publish`) covers:
  - `run_git_command`;
  - the command list and the stop-at-first-failure loop of
    `version_and_push`;
  - `commit_only`, `refresh_file_list` and `load_tags`;
  - the main window `GitApp`, as a class with the entries, lists and
    output area those operations update.

git is an oracle. Each operation that runs git commands takes a function
`run` from a command line to what `subprocess.run` gives: a finished
process with exit code, stdout and stderr, or an exception with its
message. `GitApp.RefreshFileList` and `GitApp.LoadTags`, which run one
command each, take that command's result itself; `GitApp.ReloadLists`
hands them `run` applied to their commands. The output area is a
sequence of `LogEntry` values, one per message the program appends.

The parser accepts more than the two usual shapes: any URL that contains
`:` and ends in `.git` is split after its first `:`.
`Remote.HttpsRemoteParses` shows an HTTPS URL taking that route.

## Model

| member | source | states |
|---|---|---|
| Remote.ParseOwnerRepo | git_version_push.py:137-152 | A result exists exactly when one of the two URL rules yields a repository path that contains `/`. Owner and repository are then whole path segments: the path is `owner/repo`, or ends with `/owner/repo`. |
| Remote.PathParses | git_version_push.py:147-149 | A repository path `OWNER/REPO` is read as exactly that owner and repository. |
| Remote.ColonRule | git_version_push.py:140-141 | A URL `BEFORE:REST` with REST ending in `.git` yields REST without its `.git` suffix. |
| Remote.ComRule | git_version_push.py:142-143 | A URL `BEFORE.com/REST` that the first rule does not take, with no earlier `.com/`, yields REST with every `.git` deleted. BEFORE may hold dots, as in `www.github`. |
| Remote.ScpRemoteParses | git_version_push.py:137-152 | `user@host:OWNER/REPO.git` names exactly OWNER and REPO. |
| Remote.HttpsRemoteParses | git_version_push.py:137-152 | `https://HOST/OWNER/REPO.git` goes through the `:` rule, with path `//HOST/OWNER/REPO`, and names exactly OWNER and REPO. |
| Remote.GitHubPlainRemoteParses | git_version_push.py:142-149 | `https://github.com/OWNER/REPO` without the suffix names OWNER and REPO when neither contains `.git`. |
| Remote.InnerDotGitDeleted | git_version_push.py:143 | The `.com/` rule deletes every `.git`, not only a suffix. A repository name containing `.git` loses it: `octo/octo.github.io` is read as `octohub.io`. |
| Remote.DashboardTarget | git_version_push.py:162-171 | `refresh` asks for a project exactly when the project or the remote is empty. Otherwise it reaches the API exactly when the parser finds names that are both non-empty, and then with those names, free of `/`. |
| Remote.ScpRemoteTargets | git_version_push.py:162-171 | A selected project with an scp-style remote and non-empty names reaches the API with exactly those names. |
| Remote.EmptyRepoRefused | git_version_push.py:168-170 | `host:owner/.git` parses with an empty repository and is refused. |
| Remote.PlaceholderRemoteRefused | git_version_push.py:838 | The `None set` placeholder that a folder without a remote shows is refused as unparsable. |
| Listings.VisibleIssues | git_version_push.py:196 | Every issue kept is one of the fetched issues and has no `pull_request` key. |
| Listings.VisibleIssuesKeepsPlain | git_version_push.py:196 | Every fetched issue without a `pull_request` key is kept. |
| Listings.VisibleIssuesInOrder | git_version_push.py:196 | The filter distributes over concatenation and decides each issue on its own, so the order is kept. |
| Listings.FilterCandidates | git_version_push.py:91-93 | Every candidate shown is one of the candidates, and its lower-cased text contains the lower-cased, trimmed filter text. |
| Listings.FilterCandidatesKeepsMatches | git_version_push.py:91-93 | Every candidate whose lower-cased text contains the needle is shown. |
| Listings.BlankFilterKeepsAll | git_version_push.py:92-93 | A filter text that is blank after trimming shows every candidate, in order. |
| Listings.FilterIgnoresCase | git_version_push.py:92-93 | Filtering by a text or by its lower-cased form shows the same list. |
| Listings.FilterCandidatesInOrder | git_version_push.py:93 | The filter distributes over concatenation, so the candidates keep their order. |
| Listings.StrippedLines | git_version_push.py:878 | Each line read from stripped git output is non-empty and holds no newline. |
| Listings.PorcelainEntries | git_version_push.py:876-880 | As written: one entry per non-empty line of the stripped output, each that line without its first three characters. A line shorter than three characters gives an empty entry. |
| Listings.PorcelainFirstPathTruncated | git_version_push.py:878-880 | As written: when the first changed file is modified only in the work tree (` M path`), it is listed without its first character. |
| Listings.PorcelainPathsRoundTrip | git_version_push.py:876-880 | Corrected: reading what `git status --porcelain` prints for any entries gives back exactly their paths, in order. |
| Listings.TagListRoundTrip | git_version_push.py:939-940 | Reading what `git tag --list` prints for tags without whitespace gives back exactly those tags, in order. |
| Listings.BadgeEmptyIff | git_version_push.py:847-872 | The badge text is empty exactly when the pull request, issue and commit counts are all zero. |
| Listings.BadgeMentionsNonZero | git_version_push.py:847-872 | Each label (`PRs`, `Issues`, `Commits`) appears on the badge exactly when its count is non-zero. |
| Listings.BadgeAllThree | git_version_push.py:849-872 | With all three counts non-zero the badge is the PRs entry, the issues entry and the commits entry, in that order, separated by `, `. |
| Listings.BadgeTwo | git_version_push.py:849-872 | With exactly two counts non-zero the badge is their two entries, in the order PRs, issues, commits, separated by `, `. |
| Listings.BadgeOne | git_version_push.py:849-872 | With one count non-zero the badge is that count's entry alone. |
| Listings.PartReadsBack | git_version_push.py:852-870 | The badge entry for a non-zero count is decimal digits that read back as the count, then a space and the label. |
| Listings.StateChange | git_version_push.py:451-461 | A PATCH request asks for the requested state on the issue's own `number`, and an issue whose state already is the target gives "already in that state". |
| Listings.PatchIff | git_version_push.py:451-461 | For any issue, a request is sent exactly when the issue has a state and a number, and its state differs from the target. |
| Listings.StateChangeSettles | git_version_push.py:455-457 | After the state has changed, asking for the same state again sends nothing. |
| Picker.PackageJsonFinder.constructor | git_version_push.py:58-89 | The dialog opens with an empty filter, every candidate shown and nothing chosen, and the invariant holds. |
| Picker.PackageJsonFinder.UpdateList | git_version_push.py:91-96 | The shown list becomes the filter of all candidates by the current text. Nothing else changes. |
| Picker.PackageJsonFinder.TypeFilter | git_version_push.py:68-69 | Typing keeps the dialog's invariant: the shown list always matches the filter text, and a chosen path is a candidate. |
| Picker.PackageJsonFinder.UseSelected | git_version_push.py:98-101 | With a selection in a non-empty list, the first selected shown candidate becomes the match and the dialog closes. Otherwise nothing changes. A new match contains the filter text, and the invariant is kept. |
| Publish.StatusOf | git_version_push.py:1096-1111 | A command counts as done exactly when git ran and exited with 0. A raised call reports its exception message. |
| Publish.FailureMessage | git_version_push.py:1101-1109 | A failing git reports its stdout and stderr trimmed: no longer than the output, and empty exactly when the output is blank. |
| Publish.FailureReportsMessage | git_version_push.py:1099-1109 | A failing git whose stdout and stderr, read together, are one message padded with whitespace reports exactly that message, however the text is split between the two streams. |
| Publish.StderrFailure | git_version_push.py:1099-1109 | A git that exits with 128, prints nothing on stdout and `fatal: x` plus a newline on stderr reports `fatal: x`. |
| Publish.GitApp.constructor | git_version_push.py:508-533 | A new window has no project or manifest, empty entries and lists, and "push tags" ticked. |
| Publish.GitApp.RunGitCommand | git_version_push.py:1096-1111 | Running one command echoes it with its output when the process ran, and returns its status. |
| Publish.PublishCommands | git_version_push.py:1074-1082 | The commands are, in order, `git add package.json`, `git commit -m MSG`, `git tag vVERSION` and `git push`, then `git push --tags` exactly when asked. |
| Publish.RunSequenceFirstFailure | git_version_push.py:1083-1087 | A run either completes every command, exactly when all are done, or stops at the first failing command with its message, after all earlier commands are done. |
| Publish.RunSequenceStops | git_version_push.py:1083-1087 | When the commands before `i` are done and command `i` fails, the run stops at `i`. |
| Publish.RunSequenceIgnoresLater | git_version_push.py:1083-1087 | Commands after a failure are never run, so appending commands cannot change where a run stops. |
| Publish.PushTagsOnlyAppends | git_version_push.py:1074-1082 | Ticking "push tags" appends `git push --tags` and nothing else. A failure among the first four commands stops both runs at the same place. |
| Publish.GitApp.RunUntilFailure | git_version_push.py:1083-1087 | The loop returns the outcome of stopping at the first failure. The output area gains the echo of every command started and, on a failure, its error. |
| Publish.PushReportAfter | git_version_push.py:1083-1094 | The push's report, entry by entry. After a full success: echoes, success message, tag report, file-list report. After a failure: the echoes of the commands started, then the error. |
| Publish.SetVersion | git_version_push.py:1058-1071 | Updating the manifest succeeds exactly on a JSON object. The result has `version` set to the new version and keeps every other field unchanged. |
| Publish.SetVersionIdempotent | git_version_push.py:1060-1062 | Writing the same version twice changes nothing the second time. |
| Publish.PublishRefusal | git_version_push.py:1046-1070 | `version_and_push` goes on exactly when a project and a manifest are chosen, the trimmed version and message are non-empty, and the manifest is a JSON object. Otherwise it gives the refusal of the first check that fails: no project or manifest, then an empty version or message, then a manifest that is not an object. |
| Publish.GitApp.PushAndRefresh | git_version_push.py:1083-1094 | After a full success the tag list, shown tag and file list are reloaded from git. After a failure they are unchanged, and the output area holds the echoes and the error. |
| Publish.GitApp.ReloadLists | git_version_push.py:1091-1094 | The reload after a push runs `load_tags`, then `refresh_file_list`. |
| Publish.GitApp.PublishVersion | git_version_push.py:1058-1094 | The manifest gets the new version, which is also shown as current. The output area reports the old and new version, then the push. The lists are reloaded exactly when every command succeeded. |
| Publish.GitApp.VersionAndPush | git_version_push.py:1044-1094 | The output area is cleared first. A refusal leaves only that message and changes nothing else. Otherwise the manifest, the current version, the output area and the lists are as PublishVersion states, for the trimmed version and message. |
| Publish.SelectedFiles | git_version_push.py:730-731 | The files committed are the list entries at the selected indices, in selection order. |
| Publish.CommitRefusal | git_version_push.py:720-734 | `commit_only` goes on exactly when a project is selected, the trimmed message is non-empty and some file is selected. Otherwise it gives the refusal of the first check that fails: no project, then an empty message, then no file. |
| Publish.CommitAfterStaging | git_version_push.py:736-749 | Both commands succeed exactly when both the staging and the commit are done. A failed staging stops before the commit. |
| Publish.CommitReport | git_version_push.py:736-749 | The report of `commit_only`'s commands, case by case: a failed staging, a failed commit, or a commit that is not pushed. |
| Publish.GitApp.StageAndCommit | git_version_push.py:736-748 | The output area gains the commit report, and the result says whether the files were staged. |
| Publish.GitApp.CommitFiles | git_version_push.py:736-749 | The file list is reloaded exactly when the staging succeeded. |
| Publish.GitApp.CommitOnly | git_version_push.py:719-749 | A refusal adds only that message and keeps the file list. Otherwise the selected files are staged and committed with the trimmed message, and the file list is reloaded after a successful staging. |
| Publish.GitApp.RefreshFileList | git_version_push.py:874-887 | Corrected: the file list becomes the paths git lists, or stays as it was when the call raised, which is reported. |
| Publish.ListedFilesAreChanged | git_version_push.py:874-887 | Corrected: whatever git's exit code, a listing of changed entries is read back as exactly their paths, in order. |
| Publish.PathsOfLines | git_version_push.py:878-880 | The loop collects, in order, each non-empty line without its first three characters. |
| Publish.GitApp.LoadTags | git_version_push.py:933-946 | Without a project it only asks for one. Otherwise it offers the tags listed and shows the last one, keeps the shown tag when none is listed, and reports a raised call. |
| Publish.LoadTagsSelectsLast | git_version_push.py:939-943 | After a listing of tags as git prints it, the tag box shows the last tag listed. |
| PyText.StripTrims | git_version_push.py:92 | Python's `strip()` never lengthens its input, leaves no whitespace at either end, and gives the empty string exactly on blank input. |
| PyText.RemoveAllAgrees | git_version_push.py:143 | Deleting every occurrence of a pattern in one left-to-right scan agrees with the definition that finds each next occurrence with `find`. |
| PyText.FindIsFirst | git_version_push.py:141 | `find` gives the first occurrence: no earlier position matches. |
| PyText.FindFirstAt | git_version_push.py:143 | When no occurrence starts earlier, `find` reports the occurrence right after a prefix. |
| PyText.JoinSplit | git_version_push.py:147 | Joining the pieces of `split` with the separator restores the string. |
| PyText.SplitJoin | git_version_push.py:940 | Splitting a join of pieces without the separator gives back the pieces. |
| PyText.LowerIdempotent | git_version_push.py:92-93 | Lower-casing twice is lower-casing once. |
| PyText.DecimalRoundTrip | git_version_push.py:852-870 | The decimal text of a count, as the badge shows it, reads back as that count. |
| Seqs.FilterMembers | git_version_push.py:196 | A comprehension with a condition keeps exactly the elements that satisfy it. |

## Left out

- The Tk widgets, layout, dialogs, tabs, output-area scrolling and the status bar are not modelled. Entries and list boxes are fields, and the output area is a sequence of `LogEntry` values.
- The wording of the messages is not modelled. Each message is a `LogEntry` constructor. `VersionUpdated` keeps the previous and new version rather than the formatted text.
- git is a function parameter, so running it, its working directory, and its effect on the repository are not modelled.
- The dashboard's HTTP requests are not modelled: listing pull requests, issues and commits, merging, commenting, reviews, reactions and the PATCH of `_set_issue_state`. The model covers what is decided before and after the requests.
- After a successful push, `version_and_push` also refreshes the dashboard and the badge. Both fetch from the network, so neither is part of the push model. The badge text is modelled on its own, from the three counts.
- Listings.BadgeEmptyIff: the three counts are given as numbers. The `hasattr` checks and the swallowed exceptions around them are not modelled.
- Threads (`@threaded`), the keyring, tokens, desktop shortcuts, pull/rebase, stage/unstage, tag creation, deletion and push, and remote-URL editing are not part of this model.
- Reading and writing `package.json` is not modelled: JSON parsing and formatting (`indent=2`, key order, trailing newline) and partial writes. The manifest is a `Json` value, or None when it cannot be read or parsed. A failed write is treated like a failed read.
- PyText.Lower: lower-cases ASCII letters only, not the rest of Unicode.
- The package.json search under the project folder, which produces the picker's candidates, is not modelled. The picker gets the candidates as given.
- Picker.PackageJsonFinder.UseSelected: assumes the selection's indices point into the shown list, as the list box guarantees.
- Publish.GitApp.CommitOnly: assumes the selection's indices point into the file list, as the list box guarantees.

## Findings

| source | as written | input that shows it | evidently intended | confidence | as-written member | corrected member |
|---|---|---|---|---|---|---|
| git_version_push.py:878-880 | `refresh_file_list` strips the whole `git status --porcelain` output before splitting it into lines, then drops three characters from each line. A first line whose index column is a space loses that column to the strip. | the output ` M a.txt\n` (a file modified only in the work tree) lists `.txt` instead of `a.txt` | every line keeps its two status columns, so each path is read whole | not executed | Listings.PorcelainFirstPathTruncated | Listings.PorcelainPathsRoundTrip |

`Publish.GitApp.RefreshFileList` and everything that reloads the file list
use the corrected reading, `Listings.PorcelainPaths`.
