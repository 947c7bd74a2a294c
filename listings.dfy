/** The lists the tool derives from API results and from `git` output, and
    the small decisions it takes on them: the issue list without pull
    requests, the package.json picker's filter, the changed files from
    `git status --porcelain`, the tag list from `git tag --list`, the
    notification badge and the issue open/close guard. */
module Listings {
  import opened PyText
  import opened Seqs

  // ---------------------------------------------------------------------
  // Issues (GitHubDashboard.refresh)

  /** GitHub lists pull requests among the issues; those carry this key. */
  const PullRequestKey := "pull_request"

  predicate IsPlainIssue(issue: map<string, Json>) {
    PullRequestKey !in issue
  }

  /** The issue list `refresh` keeps and displays: issues of the list
      without a `pull_request` key (that it keeps every such issue is lemma
      VisibleIssuesKeepsPlain). */
  function VisibleIssues(issues: seq<map<string, Json>>): (r: seq<map<string, Json>>)
    ensures forall k :: 0 <= k < |r| ==> r[k] in issues && PullRequestKey !in r[k]
  {
    FilterMembers(issues, IsPlainIssue);
    Filter(issues, IsPlainIssue)
  }

  /** Every issue without a `pull_request` key is kept. */
  lemma VisibleIssuesKeepsPlain(issues: seq<map<string, Json>>)
    ensures forall k :: 0 <= k < |issues| && PullRequestKey !in issues[k] ==> issues[k] in VisibleIssues(issues)
  {
    FilterMembers(issues, IsPlainIssue);
  }

  /** The filter keeps the input order: it works piece by piece, and on one
      element keeps it exactly when it has no `pull_request` key. */
  lemma VisibleIssuesInOrder(a: seq<map<string, Json>>, b: seq<map<string, Json>>, issue: map<string, Json>)
    ensures VisibleIssues(a + b) == VisibleIssues(a) + VisibleIssues(b)
    ensures VisibleIssues([issue]) == if PullRequestKey in issue then [] else [issue]
  {
    FilterAppend(a, b, IsPlainIssue);
    assert [issue][1..] == [];
  }

  // ---------------------------------------------------------------------
  // The package.json picker (PackageJsonFinder.update_list)

  /** The filter text as `update_list` uses it: lower-cased, then trimmed. */
  function Needle(filterText: string): string {
    Strip(Lower(filterText))
  }

  /** The list `update_list` shows: the candidates, in order, whose
      lower-cased text contains the needle (that it keeps every such
      candidate is lemma FilterCandidatesKeepsMatches). */
  function FilterCandidates(candidates: seq<string>, filterText: string): (r: seq<string>)
    ensures forall k :: 0 <= k < |r| ==> r[k] in candidates && Contains(Lower(r[k]), Needle(filterText))
  {
    var needle := Needle(filterText);
    FilterMembers(candidates, c => Contains(Lower(c), needle));
    Filter(candidates, c => Contains(Lower(c), needle))
  }

  /** Every candidate whose lower-cased text contains the needle is shown. */
  lemma FilterCandidatesKeepsMatches(candidates: seq<string>, filterText: string)
    ensures forall k :: 0 <= k < |candidates| && Contains(Lower(candidates[k]), Needle(filterText)) ==>
      candidates[k] in FilterCandidates(candidates, filterText)
  {
    var needle := Needle(filterText);
    FilterMembers(candidates, c => Contains(Lower(c), needle));
  }

  /** A filter text that is empty or only whitespace keeps every candidate,
      in order. */
  lemma BlankFilterKeepsAll(candidates: seq<string>, filterText: string)
    requires AllSpace(filterText)
    ensures FilterCandidates(candidates, filterText) == candidates
  {
    LowerKeepsSpace(filterText);
    StripTrims(Lower(filterText));
    var needle := Needle(filterText);
    assert needle == [];
    forall k | 0 <= k < |candidates| ensures Contains(Lower(candidates[k]), needle) {
      ContainsEmpty(Lower(candidates[k]));
    }
    FilterKeepsAll(candidates, c => Contains(Lower(c), needle));
  }

  /** The filter ignores case: typing the text in lower case selects the
      same candidates. */
  lemma FilterIgnoresCase(candidates: seq<string>, filterText: string)
    ensures FilterCandidates(candidates, Lower(filterText)) == FilterCandidates(candidates, filterText)
  {
    LowerIdempotent(filterText);
  }

  /** The filter keeps the candidates' order. */
  lemma FilterCandidatesInOrder(a: seq<string>, b: seq<string>, filterText: string)
    ensures FilterCandidates(a + b, filterText)
         == FilterCandidates(a, filterText) + FilterCandidates(b, filterText)
  {
    var needle := Needle(filterText);
    FilterAppend(a, b, c => Contains(Lower(c), needle));
  }

  // ---------------------------------------------------------------------
  // Changed files (GitApp.refresh_file_list)

  predicate NonEmpty(line: string) {
    line != []
  }

  /** The line without its two status columns and the space. */
  function PathOfLine(line: string): string {
    DropFirst(line, 3)
  }

  /** The non-empty lines of the output once its surrounding whitespace is
      stripped, as both `refresh_file_list` and `load_tags` read what git
      prints. */
  function StrippedLines(stdout: string): (r: seq<string>)
    ensures forall k :: 0 <= k < |r| ==> r[k] != [] && '\n' !in r[k]
  {
    var lines := Split(Strip(stdout), '\n');
    FilterMembers(lines, NonEmpty);
    Filter(lines, NonEmpty)
  }

  /** The file list `refresh_file_list` builds: one entry per non-empty
      line of the stripped output, that line without its first three
      characters. */
  function PorcelainEntries(stdout: string): (r: seq<string>)
    ensures |r| == |StrippedLines(stdout)|
    ensures forall k :: 0 <= k < |r| ==>
      (|StrippedLines(stdout)[k]| >= 3 ==> StrippedLines(stdout)[k] == StrippedLines(stdout)[k][..3] + r[k])
      && (|StrippedLines(stdout)[k]| < 3 ==> r[k] == [])
  {
    Map(StrippedLines(stdout), PathOfLine)
  }

  /** One entry of `git status --porcelain`: the index and work-tree status
      columns and the path. */
  datatype StatusEntry = StatusEntry(index: char, workTree: char, path: string)

  /** An entry that `git status --porcelain` prints on a single line. */
  predicate OnOneLine(e: StatusEntry) {
    e.index != '\n' && e.workTree != '\n' && '\n' !in e.path
  }

  function EntryLine(e: StatusEntry): (line: string)
    ensures OnOneLine(e) ==> line != [] && '\n' !in line
  {
    [e.index, e.workTree, ' '] + e.path
  }

  /** What `git status --porcelain` prints: each entry on a line of its own. */
  function PorcelainOutput(entries: seq<StatusEntry>): string {
    if entries == [] then [] else EntryLine(entries[0]) + "\n" + PorcelainOutput(entries[1..])
  }

  function EntryPath(e: StatusEntry): string {
    e.path
  }

  /** A single non-empty line is read as that line's path. */
  lemma OneLineRead(line: string)
    requires line != [] && '\n' !in line
    ensures Map(Filter(Split(line, '\n'), NonEmpty), PathOfLine) == [PathOfLine(line)]
  {
    SplitNoSep(line, '\n');
    assert Filter([line], NonEmpty) == [line] by {
      assert [line][1..] == [];
    }
    assert Map([line], PathOfLine) == [PathOfLine(line)] by {
      assert [line][1..] == [];
    }
  }

  /** As written, stripping the whole output also strips the first line's
      leading status column when it is a space (a file changed in the work
      tree only): ` M a.txt` is listed as `.txt`. */
  lemma PorcelainFirstPathTruncated(y: char, path: string)
    requires !IsSpace(y)
    requires path != [] && '\n' !in path && !IsSpace(path[|path| - 1])
    ensures PorcelainEntries(PorcelainOutput([StatusEntry(' ', y, path)])) == [path[1..]]
  {
    var line := [y, ' '] + path;
    SingleEntryOutput(y, path);
    StrippedLine(line);
    assert PathOfLine(line) == path[1..];
  }

  lemma SingleEntryOutput(y: char, path: string)
    ensures PorcelainOutput([StatusEntry(' ', y, path)]) == [' '] + ([y, ' '] + path) + "\n"
  {
    var e := StatusEntry(' ', y, path);
    assert [e][1..] == [];
    assert PorcelainOutput([e][1..]) == [];
    assert EntryLine(e) == [' '] + ([y, ' '] + path);
  }

  lemma StrippedLine(line: string)
    requires line != [] && '\n' !in line
    requires !IsSpace(line[0]) && !IsSpace(line[|line| - 1])
    ensures StrippedLines([' '] + line + "\n") == [line]
  {
    StripPadded([' '], line, "\n");
    SplitNoSep(line, '\n');
    assert Filter([line], NonEmpty) == [line] by {
      assert [line][1..] == [];
    }
  }

  /** The file list as evidently intended: every non-empty line without its
      first three characters, with no stripping of the output. */
  function PorcelainPaths(stdout: string): seq<string> {
    Map(Filter(Split(stdout, '\n'), NonEmpty), PathOfLine)
  }

  /** Reading what `git status --porcelain` prints gives back exactly the
      changed paths, in order, whatever their status columns. */
  lemma {:induction false} PorcelainPathsRoundTrip(entries: seq<StatusEntry>)
    requires forall k :: 0 <= k < |entries| ==> OnOneLine(entries[k])
    ensures PorcelainPaths(PorcelainOutput(entries)) == Map(entries, EntryPath)
  {
    if entries == [] {
      assert Split([], '\n') == [[]];
    } else {
      var line := EntryLine(entries[0]);
      var rest := PorcelainOutput(entries[1..]);
      PorcelainPathsRoundTrip(entries[1..]);
      assert PorcelainOutput(entries) == line + ['\n'] + rest;
      SplitConcat(line, rest, '\n');
      assert OnOneLine(entries[0]);
      OneLineRead(line);
      SplitNoSep(line, '\n');
      FilterAppend([line], Split(rest, '\n'), NonEmpty);
      MapAppend(Filter([line], NonEmpty), Filter(Split(rest, '\n'), NonEmpty), PathOfLine);
      assert PathOfLine(line) == entries[0].path;
    }
  }

  // ---------------------------------------------------------------------
  // Tags (GitApp.load_tags)

  /** A tag name as git allows it: non-empty and without whitespace. */
  predicate TagName(t: string) {
    t != [] && forall k :: 0 <= k < |t| ==> !IsSpace(t[k])
  }

  /** Reading what `git tag --list` prints gives back exactly the tags, in
      order. */
  lemma TagListRoundTrip(tags: seq<string>)
    requires forall k :: 0 <= k < |tags| ==> TagName(tags[k])
    ensures StrippedLines(Join(tags, "\n") + "\n") == tags
  {
    if tags == [] {
      StripPadded([], [], "\n");
      assert [] + [] + "\n" == Join(tags, "\n") + "\n";
      var none: seq<string> := [[]];
      assert Split([], '\n') == none;
      assert Filter(none, NonEmpty) == [] by {
        assert none[1..] == [];
      }
    } else {
      StripListing(tags);
      forall k | 0 <= k < |tags| ensures '\n' !in tags[k] {
        NoNewline(tags[k]);
      }
      SplitJoin(tags, '\n');
      FilterKeepsAll(tags, NonEmpty);
    }
  }

  lemma NoNewline(t: string)
    requires TagName(t)
    ensures '\n' !in t
  {
    assert IsSpace('\n');
  }

  /** Stripping the listing leaves the tags joined by newlines. */
  lemma StripListing(tags: seq<string>)
    requires |tags| >= 1 && forall k :: 0 <= k < |tags| ==> TagName(tags[k])
    ensures Strip(Join(tags, "\n") + "\n") == Join(tags, "\n")
  {
    ListingEnds(tags);
    assert AllSpace("\n") by {
      assert IsSpace('\n');
    }
    StripPaddedRight(Join(tags, "\n"), "\n");
  }

  /** The joined tags start and end with a tag's own characters. */
  lemma ListingEnds(tags: seq<string>)
    requires |tags| >= 1 && forall k :: 0 <= k < |tags| ==> TagName(tags[k])
    ensures Join(tags, "\n") != []
    ensures !IsSpace(Join(tags, "\n")[0]) && !IsSpace(Join(tags, "\n")[|Join(tags, "\n")| - 1])
  {
    var body := Join(tags, "\n");
    JoinEnds(tags, "\n");
    var first, last := tags[0], tags[|tags| - 1];
    assert TagName(first) && TagName(last);
    assert body[0] == first[0];
    assert body[|body| - |last|..] == last;
    assert body[|body| - 1] == last[|last| - 1];
  }


  // ---------------------------------------------------------------------
  // The notification badge (GitApp.update_notif_badge)

  /** The three counts the badge shows, in the order it shows them. */
  datatype Kind = PullRequests | Issues | Commits

  function Label(kind: Kind): string {
    match kind
    case PullRequests => "PRs"
    case Issues => "Issues"
    case Commits => "Commits"
  }

  /** The badge's entry for one count: `f"{n} PRs"` and so on, or nothing
      when the count is zero. */
  function Part(n: nat, kind: Kind): seq<string> {
    if n != 0 then [NatToString(n) + " " + Label(kind)] else []
  }

  function BadgeParts(prs: nat, issues: nat, commits: nat): seq<string> {
    Part(prs, PullRequests) + Part(issues, Issues) + Part(commits, Commits)
  }

  /** The badge text: the non-zero counts, joined by `, `. */
  function BadgeText(prs: nat, issues: nat, commits: nat): string {
    Join(BadgeParts(prs, issues, commits), ", ")
  }

  /** The badge is empty exactly when all three counts are zero. */
  lemma BadgeEmptyIff(prs: nat, issues: nat, commits: nat)
    ensures BadgeText(prs, issues, commits) == [] <==> prs == 0 && issues == 0 && commits == 0
  {
    var parts := BadgeParts(prs, issues, commits);
    if parts != [] {
      assert parts[0] != [];
      if |parts| > 1 {
        assert BadgeText(prs, issues, commits) == parts[0] + ", " + Join(parts[1..], ", ");
      }
    }
  }

  /** With all three counts non-zero the badge lists the PRs, then the
      issues, then the commits, separated by `, `. */
  lemma BadgeAllThree(prs: nat, issues: nat, commits: nat)
    requires prs != 0 && issues != 0 && commits != 0
    ensures BadgeText(prs, issues, commits)
         == Part(prs, PullRequests)[0] + ", " + Part(issues, Issues)[0] + ", " + Part(commits, Commits)[0]
  {
    var a, b, c := Part(prs, PullRequests)[0], Part(issues, Issues)[0], Part(commits, Commits)[0];
    var parts := BadgeParts(prs, issues, commits);
    assert parts == [a, b, c];
    assert parts[1..][1..] == [c];
    assert Join(parts[1..], ", ") == b + ", " + c;
  }

  /** With exactly two counts non-zero the badge lists those two, in the
      order PRs, issues, commits, separated by `, `. */
  lemma BadgeTwo(prs: nat, issues: nat, commits: nat)
    ensures prs != 0 && issues != 0 && commits == 0 ==>
      BadgeText(prs, issues, commits) == Part(prs, PullRequests)[0] + ", " + Part(issues, Issues)[0]
    ensures prs != 0 && issues == 0 && commits != 0 ==>
      BadgeText(prs, issues, commits) == Part(prs, PullRequests)[0] + ", " + Part(commits, Commits)[0]
    ensures prs == 0 && issues != 0 && commits != 0 ==>
      BadgeText(prs, issues, commits) == Part(issues, Issues)[0] + ", " + Part(commits, Commits)[0]
  {
    var parts := BadgeParts(prs, issues, commits);
    if |parts| == 2 {
      assert parts[1..] == [parts[1]];
      assert Join(parts[1..], ", ") == parts[1];
      assert BadgeText(prs, issues, commits) == parts[0] + ", " + parts[1];
    }
  }

  /** With one count non-zero the badge is that count's entry alone. */
  lemma BadgeOne(prs: nat, issues: nat, commits: nat)
    ensures prs != 0 && issues == 0 && commits == 0 ==> BadgeText(prs, issues, commits) == Part(prs, PullRequests)[0]
    ensures prs == 0 && issues != 0 && commits == 0 ==> BadgeText(prs, issues, commits) == Part(issues, Issues)[0]
    ensures prs == 0 && issues == 0 && commits != 0 ==> BadgeText(prs, issues, commits) == Part(commits, Commits)[0]
  {
  }

  /** The badge's entry for a non-zero count is the count's decimal digits,
      which read back as that count, then a space and the label. */
  lemma PartReadsBack(n: nat, kind: Kind)
    requires n != 0
    ensures |Part(n, kind)| == 1
    ensures
      var p := Part(n, kind)[0];
      var d := |p| - |Label(kind)| - 1;
      0 < d && p[d..] == " " + Label(kind)
      && (forall k :: 0 <= k < d ==> IsDigit(p[k]))
      && DecimalValue(p[..d]) == n
  {
    var digits := NatToString(n);
    var p := digits + " " + Label(kind);
    assert p[..|digits|] == digits;
    assert p[|digits|..] == " " + Label(kind);
    DecimalRoundTrip(n);
  }

  function CountOf(prs: nat, issues: nat, commits: nat, kind: Kind): nat {
    match kind
    case PullRequests => prs
    case Issues => issues
    case Commits => commits
  }

  /** Each label is on the badge exactly when its count is non-zero. */
  lemma BadgeMentionsNonZero(prs: nat, issues: nat, commits: nat, kind: Kind)
    ensures Contains(BadgeText(prs, issues, commits), Label(kind))
        <==> CountOf(prs, issues, commits, kind) != 0
  {
    var parts := BadgeParts(prs, issues, commits);
    var text := Join(parts, ", ");
    var n := CountOf(prs, issues, commits, kind);
    var c := Label(kind)[0];
    if n == 0 {
      forall k | 0 <= k < |parts| ensures c !in parts[k] {
        NoLetterInPart(prs, PullRequests, c);
        NoLetterInPart(issues, Issues, c);
        NoLetterInPart(commits, Commits, c);
        assert parts[k] in Part(prs, PullRequests) || parts[k] in Part(issues, Issues)
            || parts[k] in Part(commits, Commits) by {
          assert parts[k] in parts;
        }
      }
      JoinAvoids(parts, ", ", c);
      if Contains(text, Label(kind)) {
        ContainsChars(text, Label(kind), c);
      }
    } else {
      var piece := NatToString(n) + " " + Label(kind);
      assert piece in Part(n, kind);
      assert piece in parts;
      var i :| 0 <= i < |parts| && parts[i] == piece;
      JoinHolds(parts, ", ", i);
      ContainsInside(NatToString(n) + " ", Label(kind), []);
      assert piece + [] == piece;
      ContainsWithin(piece, Label(kind), text);
    }
  }

  /** The first letter of a label is neither a digit nor in another label. */
  lemma NoLetterInPart(n: nat, other: Kind, c: char)
    requires c in {'P', 'I', 'C'}
    requires c != Label(other)[0] || n == 0
    ensures forall p :: p in Part(n, other) ==> c !in p
  {
    if n != 0 {
      NoLetterInNumber(n, c);
    }
  }

  lemma NoLetterInNumber(n: nat, c: char)
    requires !IsDigit(c)
    ensures c !in NatToString(n)
  {
  }

  /** Each piece of a join is a part of it. */
  lemma {:induction false} JoinHolds(parts: seq<string>, sep: string, i: nat)
    requires i < |parts|
    ensures exists a, b :: Join(parts, sep) == a + parts[i] + b
  {
    if |parts| == 1 {
      assert Join(parts, sep) == [] + parts[0] + [];
    } else if i == 0 {
      assert Join(parts, sep) == [] + parts[0] + (sep + Join(parts[1..], sep));
    } else {
      JoinHolds(parts[1..], sep, i - 1);
      var a, b :| Join(parts[1..], sep) == a + parts[i] + b;
      assert Join(parts, sep) == (parts[0] + sep + a) + parts[i] + b;
    }
  }

  lemma ContainsWithin(part: string, pat: string, whole: string)
    requires Contains(part, pat)
    requires exists a, b :: whole == a + part + b
    ensures Contains(whole, pat)
  {
    var a, b :| whole == a + part + b;
    var i := Find(part, pat);
    assert whole[|a| + i..|a| + i + |pat|] == part[i..i + |pat|];
    assert OccursAt(whole, pat, |a| + i);
    ContainsIff(whole, pat);
  }

  // ---------------------------------------------------------------------
  // Opening and closing issues (GitHubDashboard._set_issue_state)

  /** What `_set_issue_state` does: nothing without an issue, a status
      message when the issue is already in the target state, a KeyError
      when a field it reads is missing, or one PATCH request. */
  datatype StateRequest =
    | NoIssue
    | AlreadyInState
    | MissingField(key: string)
    | Patch(number: Json, state: string)

  function StateChange(issue: Option<map<string, Json>>, newState: string): (r: StateRequest)
    ensures r.Patch? ==> r.state == newState
    ensures r.Patch? ==> issue.Some? && "number" in issue.value && r.number == issue.value["number"]
    ensures issue.Some? && "state" in issue.value && issue.value["state"] == Str(newState) ==> r == AlreadyInState
  {
    match issue
    case None => NoIssue
    case Some(fields) =>
      if fields == map[] then NoIssue
      else if "state" !in fields then MissingField("state")
      else if fields["state"] == Str(newState) then AlreadyInState
      else if "number" !in fields then MissingField("number")
      else Patch(fields["number"], newState)
  }

  /** A request is sent exactly when the issue has a number and a state
      other than the target one. */
  lemma PatchIff(issue: map<string, Json>, newState: string)
    ensures StateChange(Some(issue), newState).Patch?
        <==> "state" in issue && "number" in issue && issue["state"] != Str(newState)
  {
  }

  /** Once the request has changed the state, asking for the same state
      again sends nothing. */
  lemma StateChangeSettles(issue: map<string, Json>, newState: string)
    requires StateChange(Some(issue), newState).Patch?
    ensures StateChange(Some(issue["state" := Str(newState)]), newState) == AlreadyInState
  {
  }
}
