/** changelog.py: the `Changelog` object that deploys a release into the
    releases repository. It derives branch and version from git, decides from
    the `apx` tag whether the current commit is already published, and
    otherwise generates the changes, writes them to a release-notes file and
    splices a new entry into the repository's `CHANGELOG.md`. */
module DeployChangelog {
  import opened Wrappers
  import opened Strings
  import opened CommitModel
  import opened Collection
  import opened Markdown
  import opened Splice
  import opened GitOutput

  /** The releases repository used when none is given. */
  const DefaultRemote := "uavos/apx-releases"

  /** Paths inside the releases repository's working tree. */
  const ChangelogPath := "CHANGELOG.md"
  const TmpPath := "CHANGELOG.md.tmp"

  function NotesPath(version: string): string {
    "notes/release-" + version + ".md"
  }

  /** The three lines of the fixed preamble of `CHANGELOG.md`. */
  const PreambleTitle := "# Changelog"
  const PreambleLine1 := "All notable changes to " + "**APX Software** will be documented " + "in this file.  "
  const PreambleLine2 := "For more information refer to " + "[docs.uavos.com](http://docs.uavos.com)."

  function Preamble(): string {
    PreambleTitle + "\n\n" + PreambleLine1 + "\n" + PreambleLine2 + "\n\n"
  }

  /** The text of a file of the working tree, `None` when it does not exist. */
  function FileAt(files: map<string, string>, path: string): (r: Option<string>)
    ensures r.Some? <==> path in files
    ensures r.Some? ==> r.value == files[path]
  {
    if path in files then Some(files[path]) else None
  }

  // ---------------------------------------------------------------------------
  // The `apx` tag

  /** `tag_apx.tag.message.strip().split('\n')[0]`, or `''` when the releases
      repository has no `apx` tag. */
  function PrevRef(tagMessage: Option<string>): (r: string)
    ensures '\n' !in r
  {
    if tagMessage.None? then "" else Split(Strip(tagMessage.value), '\n')[0]
  }

  /** The current commit is published when the `apx` tag exists and the first
      line of its message is that commit. */
  predicate Published(tagMessage: Option<string>, commit: string) {
    tagMessage.Some? && PrevRef(tagMessage) == commit
  }

  // ---------------------------------------------------------------------------
  // `get_changelog` and `update_changes`

  /** What `get_changelog` returns: the commits parsed (with their links
      fixed), the template rendered from the sorted and filtered ones, the
      result stripped, without carriage returns and with its blank lines
      collapsed. `None` when some commit message is blank, on which the
      script raises. */
  function ChangelogText(raws: seq<RawCommit>, doComments: bool, render: Renderer): (r: Option<string>)
    ensures r.None? <==> ParseAll(raws, Deploy).None?
  {
    match ParseAll(raws, Deploy)
    case None => None
    case Some(cs) => Some(Squeeze(RemoveCR(Strip(Rendered(cs, doComments, render, Deploy)))))
  }

  /** The text that stands in for an empty changelog. */
  function PlaceholderText(date: string): string {
    "Security updates and latest firmware `" + date + "`"
  }

  /** The `changes` of `update_changes`: the log since `prevRef` (the log is
      not read at all when `prevRef` is empty), or the placeholder when that
      is empty. The result is never empty. */
  function DeployChanges(prevRef: string, raws: seq<RawCommit>, render: Renderer, date: string): (r: Option<string>)
    ensures r.Some? ==> r.value != ""
    ensures prevRef == "" ==> r == Some(PlaceholderText(date))
    ensures r.None? <==> prevRef != "" && ParseAll(raws, Deploy).None?
  {
    if prevRef == "" then Some(PlaceholderText(date))
    else
      match ChangelogText(raws, true, render)
      case None => None
      case Some(t) => Some(Placeholder(t, PlaceholderText(date)))
  }

  /** `## [Version V](https://github.com/R/releases/tag/V) (D)`. */
  function EntryTitle(version: string, remote: string, date: string): string {
    "## [Version " + version + "](https://github.com/" + remote + "/releases/tag/" + version + ") (" + date + ")"
  }

  /** Branch, date and, when there is a previous published commit, the diff
      link; each line but the last ends in two spaces, a markdown hard line
      break. */
  function EntryHeader(branch: string, dateTime: string, prevRef: string, head: string): string {
    BranchLine(branch) + "\n" + DateLine(dateTime) +
    (if prevRef != "" then "  " + "\n" + DiffLine(prevRef, head) else "")
  }

  function BranchLine(branch: string): string {
    "> Branch: `" + branch + "`  "
  }

  function DateLine(dateTime: string): string {
    "Date: `" + dateTime + "`"
  }

  /** The diff link always points at the `uavos/apx` repository. */
  function DiffLine(prevRef: string, head: string): string {
    "Diff: [uavos/apx](" + "https://github.com/uavos/apx/compare/" + prevRef + "..." + head + ")"
  }

  /** What is written before the tail of the old file: the fixed preamble, the
      title, the header and the changes with every heading two levels deeper. */
  function Head(title: string, header: string, changes: string): string {
    Preamble() + title + "\n\n" + header + "\n\n" + Shift(changes, "###") + "\n\n"
  }

  /** The new `CHANGELOG.md`, given the target file and a leftover temporary
      file as they were before the run: the old file (after the dirty-run
      recovery) is kept from its first `## ` line that does not start with
      the title. */
  function ChangelogFile(title: string, header: string, changes: string,
                         target: Option<string>, tmp: Option<string>): string {
    Spliced(Head(title, header, changes), Recovered(target, tmp), "## ", title)
  }

  /** The working tree after `update_changes`: the temporary file is gone and
      `CHANGELOG.md` holds the new file. */
  function AfterUpdateChanges(files: map<string, string>, title: string, header: string,
                              changes: string): (r: map<string, string>)
    ensures TmpPath !in r && ChangelogPath in r
    ensures forall p :: p in files && p != TmpPath && p != ChangelogPath ==> p in r && r[p] == files[p]
  {
    (files - {TmpPath})[ChangelogPath :=
      ChangelogFile(title, header, changes, FileAt(files, ChangelogPath), FileAt(files, TmpPath))]
  }

  /** Writing the temporary file and renaming it over `CHANGELOG.md` leaves
      the same files whether or not the interrupted run was recovered first. */
  lemma RenameOver(start: map<string, string>, recovered: map<string, string>, written: string)
    requires recovered == start || (TmpPath in start && recovered == (start - {TmpPath})[ChangelogPath := start[TmpPath]])
    ensures ((recovered[TmpPath := written]) - {TmpPath})[ChangelogPath := written] ==
      (start - {TmpPath})[ChangelogPath := written]
  {
  }

  class Changelog {
    const remote: string
    const branch: string
    const commit: string
    const headHexsha: string
    const date: string
    const dateTime: string
    const version: string
    var changes: Option<string>
    var published: bool
    /** The releases repository's working tree: file contents by path. */
    var files: map<string, string>
    /** The paths added to the releases repository's index. */
    var staged: set<string>

    /** `Changelog.__init__`, from what git prints: the output of
        `git branch --contains`, `git rev-parse HEAD`, the head commit's hash
        and its date formatted as `%x` and `%x %X`, `git describe`, and the
        releases repository's working tree. The script asserts that the
        version is not empty. */
    constructor (remote: Option<string>, branchOutput: string, revParseHead: string, headHexsha: string,
                 date: string, dateTime: string, describe: string, files: map<string, string>)
      requires Version(describe, Deploy).Some?
      ensures this.remote == OrElse(remote, DefaultRemote)
      ensures branch == Branch(branchOutput, "master")
      ensures commit == revParseHead && this.headHexsha == headHexsha
      ensures this.date == date && this.dateTime == dateTime
      ensures version == Version(describe, Deploy).value
      ensures changes.None? && !published && this.files == files && staged == {}
    {
      this.remote := if remote.Some? && remote.value != "" then remote.value else DefaultRemote;
      var b := SelectBranch(branchOutput, "master");
      branch := b;
      commit := revParseHead;
      this.headHexsha := headHexsha;
      this.date := date;
      this.dateTime := dateTime;
      version := Version(describe, Deploy).value;
      changes := None;
      published := false;
      this.files := files;
      staged := {};
    }

    /** `get_changelog`: parse, sort, filter, group, render and clean, with the
        collapse loop. The text is stripped, has no carriage return and no
        three newlines in a row. */
    method GetChangelog(raws: seq<RawCommit>, doComments: bool, render: Renderer) returns (text: Option<string>)
      ensures text == ChangelogText(raws, doComments, render)
      ensures text.Some? ==> IsStripped(text.value) && '\r' !in text.value && !HasTriple(text.value)
    {
      var parsed := ParseAll(raws, Deploy);
      if parsed.None? {
        return None;
      }
      var kept := Classified(SortByDate(parsed.value));
      var commits := new Commits(kept, Deploy);
      var comments := if doComments then Some(commits.comments) else None;
      var cleaned := RemoveCR(Strip(render(commits.commits, commits.groups, comments)));
      var collapsed := Collapse(cleaned);
      CleanedText(render(commits.commits, commits.groups, comments));
      text := Some(collapsed);
    }

    /** `update_changes`: the changes, and `CHANGELOG.md` rewritten through its
        temporary file and staged. A blank commit message raises before any
        file is touched. */
    method UpdateChanges(prevRef: string, raws: seq<RawCommit>, render: Renderer) returns (result: Option<string>)
      modifies this`files, this`staged
      ensures result == DeployChanges(prevRef, raws, render, date)
      ensures result.None? ==> files == old(files) && staged == old(staged)
      ensures result.Some? ==>
        files == AfterUpdateChanges(old(files), EntryTitle(version, remote, date),
                                    EntryHeader(branch, dateTime, prevRef, headHexsha), result.value) &&
        staged == old(staged) + {ChangelogPath}
    {
      var text := "";
      if prevRef != "" {
        var t := GetChangelog(raws, true, render);
        if t.None? {
          return None;
        }
        text := t.value;
      }
      var changes := if |text| == 0 then PlaceholderText(date) else text;
      WriteChangelog(EntryTitle(version, remote, date), EntryHeader(branch, dateTime, prevRef, headHexsha), changes);
      staged := staged + {ChangelogPath};
      result := Some(changes);
    }

    /** The file part of `update_changes`: a temporary file left by an
        interrupted run replaces a missing `CHANGELOG.md`; the new text goes to
        the temporary file, which then replaces `CHANGELOG.md`. */
    method WriteChangelog(title: string, header: string, changes: string)
      modifies this`files
      ensures files == AfterUpdateChanges(old(files), title, header, changes)
    {
      ghost var target, tmp := FileAt(files, ChangelogPath), FileAt(files, TmpPath);
      ghost var start := files;
      if TmpPath in files && ChangelogPath !in files {
        files := (files - {TmpPath})[ChangelogPath := files[TmpPath]];
      }
      ghost var recovered := files;
      var prev := FileAt(files, ChangelogPath);
      assert prev == Recovered(target, tmp);
      var written := WriteFile(Head(title, header, changes), prev, "## ", title);
      files := files[TmpPath := written];
      files := (files - {TmpPath})[ChangelogPath := written];
      RenameOver(start, recovered, written);
    }

    /** `update`: nothing happens once `changes` is non-empty. Otherwise the
        `apx` tag decides whether the current commit is published; a published
        release reads its changes back from the notes file, an unpublished one
        generates them, writes them with every heading three levels deeper to
        the notes file and stages it. `raised` is an exception escaping the
        script: a blank commit message, or a missing notes file for a
        published release. */
    method Update(tagMessage: Option<string>, raws: seq<RawCommit>, render: Renderer) returns (raised: bool)
      modifies this
      ensures old(changes).Some? && old(changes).value != "" ==>
        !raised && changes == old(changes) && published == old(published) &&
        files == old(files) && staged == old(staged)
      ensures !(old(changes).Some? && old(changes).value != "") ==>
        published == Published(tagMessage, commit)
      ensures !(old(changes).Some? && old(changes).value != "") && published ==>
        var notes := NotesPath(version);
        raised == (notes !in old(files)) && files == old(files) && staged == old(staged) &&
        changes == (if notes in old(files) then Some(old(files)[notes]) else old(changes))
      ensures !(old(changes).Some? && old(changes).value != "") && !published ==>
        var prevRef := PrevRef(tagMessage);
        var r := DeployChanges(prevRef, raws, render, date);
        raised == r.None? &&
        (r.None? ==> changes == old(changes) && files == old(files) && staged == old(staged)) &&
        (r.Some? ==>
          changes == Some(Shift(r.value, "####")) && changes.value != "" &&
          files == AfterUpdateChanges(old(files), EntryTitle(version, remote, date),
                                      EntryHeader(branch, dateTime, prevRef, headHexsha), r.value)
                   [NotesPath(version) := changes.value] &&
          staged == old(staged) + {ChangelogPath, NotesPath(version)})
    {
      raised := false;
      if changes.Some? && changes.value != "" {
        return;
      }
      published := false;
      var prevRef := "";
      if tagMessage.Some? {
        prevRef := PrevRef(tagMessage);
        if prevRef == commit {
          published := true;
        }
      }
      if !published {
        raised := WriteNotes(prevRef, raws, render);
      } else {
        raised := ReadNotes();
      }
    }

    /** An unpublished release: the changes are generated, every heading is
        moved three levels deeper, and the result is written to the notes file
        and staged. */
    method WriteNotes(prevRef: string, raws: seq<RawCommit>, render: Renderer) returns (raised: bool)
      modifies this`changes, this`files, this`staged
      ensures var r := DeployChanges(prevRef, raws, render, date);
        raised == r.None? &&
        (r.None? ==> changes == old(changes) && files == old(files) && staged == old(staged)) &&
        (r.Some? ==>
          changes == Some(Shift(r.value, "####")) && changes.value != "" &&
          files == AfterUpdateChanges(old(files), EntryTitle(version, remote, date),
                                      EntryHeader(branch, dateTime, prevRef, headHexsha), r.value)
                   [NotesPath(version) := changes.value] &&
          staged == old(staged) + {ChangelogPath, NotesPath(version)})
    {
      var generated := UpdateChanges(prevRef, raws, render);
      if generated.None? {
        return true;
      }
      ShiftNonEmpty(generated.value, "####");
      changes := Some(Shift(generated.value, "####"));
      var notes := NotesPath(version);
      files := files[notes := changes.value];
      staged := staged + {notes};
      raised := false;
    }

    /** A published release: the changes are read back from the notes file,
        and opening a missing one raises. */
    method ReadNotes() returns (raised: bool)
      modifies this`changes
      ensures var notes := NotesPath(version);
        raised == (notes !in files) &&
        changes == (if notes in files then Some(files[notes]) else old(changes))
    {
      var notes := NotesPath(version);
      if notes in files {
        changes := Some(files[notes]);
        raised := false;
      } else {
        raised := true;
      }
    }
  }

  // ---------------------------------------------------------------------------
  // Lemmas

  /** The heading shift never empties a text. */
  lemma ShiftNonEmpty(s: string, marker: string)
    requires s != "" && marker != ""
    ensures Shift(s, marker) != ""
  {
  }

  /** `CHANGELOG.md` is the head followed by the old file from its first line
      that starts with `## ` but not with the title, byte for byte; lines
      before that one are dropped, and without an old file nothing follows
      the head. */
  lemma ChangelogKeepsTail(title: string, header: string, changes: string,
                           target: Option<string>, tmp: Option<string>)
    ensures var old_ := Recovered(target, tmp);
      var file := ChangelogFile(title, header, changes, target, tmp);
      (old_.None? ==> file == Head(title, header, changes)) &&
      (old_.Some? ==>
        var lines := Lines(old_.value);
        var k := FirstAnchor(lines, "## ", title);
        file == Head(title, header, changes) + Concat(lines[k..]) &&
        (forall i :: 0 <= i < k ==> !(StartsWith(lines[i], "## ") && !StartsWith(lines[i], title))) &&
        (k < |lines| ==> StartsWith(lines[k], "## ") && !StartsWith(lines[k], title)))
  {
    SplicedShape(Head(title, header, changes), Recovered(target, tmp), "## ", title);
  }

  /** The title is one line that starts with itself, so it does not start the
      copy. */
  lemma TitleQuiet(version: string, remote: string, date: string)
    requires '\n' !in version && '\n' !in remote && '\n' !in date
    ensures var t := EntryTitle(version, remote, date); Quiet(t, "## ", t)
  {
    var t := EntryTitle(version, remote, date);
    assert StartsWith(t, t);
    QuietLine(t, "## ", t);
  }

  /** No line of the fixed preamble starts with `## `. */
  lemma PreambleQuiet(title: string)
    ensures Quiet(PreambleTitle + "\n\n" + PreambleLine1 + "\n" + PreambleLine2, "## ", title)
  {
    PreambleTitleQuiet(title);
    PreambleLine1Quiet(title);
    PreambleLine2Quiet(title);
    QuietJoin(PreambleLine1, PreambleLine2, "## ", title);
    QuietJoin2(PreambleTitle, PreambleLine1 + "\n" + PreambleLine2, "## ", title);
    assert PreambleTitle + "\n\n" + (PreambleLine1 + "\n" + PreambleLine2) ==
      PreambleTitle + "\n\n" + PreambleLine1 + "\n" + PreambleLine2;
  }

  lemma PreambleTitleQuiet(title: string)
    ensures Quiet(PreambleTitle, "## ", title)
  {
    assert PreambleTitle[1] == ' ';
    QuietLine(PreambleTitle, "## ", title);
  }

  lemma PreambleLine1Quiet(title: string)
    ensures Quiet(PreambleLine1, "## ", title)
  {
    QuietOther(PreambleLine1, title);
  }

  lemma PreambleLine2Quiet(title: string)
    ensures Quiet(PreambleLine2, "## ", title)
  {
    QuietOther(PreambleLine2, title);
  }

  /** A line that starts with a character other than `#` is quiet for `## `. */
  lemma QuietOther(p: string, title: string)
    requires '\n' !in p && |p| > 0 && p[0] != '#'
    ensures Quiet(p, "## ", title)
  {
    QuietLine(p, "## ", title);
  }

  /** No line of the header starts with `## `: they start with `>` or `D`. */
  lemma HeaderQuiet(branch: string, dateTime: string, prevRef: string, head: string, title: string)
    requires '\n' !in branch && '\n' !in dateTime && '\n' !in prevRef && '\n' !in head
    ensures Quiet(EntryHeader(branch, dateTime, prevRef, head), "## ", title)
  {
    var a := BranchLine(branch);
    var b := DateLine(dateTime);
    QuietOther(a, title);
    if prevRef != "" {
      var c := DiffLine(prevRef, head);
      DiffTailQuiet(b, c, title);
      QuietJoin(a, b + "  " + "\n" + c, "## ", title);
      Regroup(a, b, c);
    } else {
      QuietOther(b, title);
      QuietJoin(a, b, "## ", title);
      assert (a + "\n" + b) + "" == a + "\n" + b;
    }
  }

  /** The header with a diff link, regrouped around its first line break. */
  lemma Regroup(a: string, b: string, c: string)
    ensures a + "\n" + b + ("  " + "\n" + c) == a + "\n" + (b + "  " + "\n" + c)
  {
  }

  /** The date line with its hard break, then the diff line. */
  lemma DiffTailQuiet(b: string, c: string, title: string)
    requires '\n' !in b && |b| > 0 && b[0] != '#'
    requires '\n' !in c && |c| > 0 && c[0] != '#'
    ensures Quiet(b + "  " + "\n" + c, "## ", title)
  {
    QuietOther(b + "  ", title);
    QuietOther(c, title);
    QuietJoin(b + "  ", c, "## ", title);
  }

  /** Running `update_changes` again with the same version, date and changes
      on the `CHANGELOG.md` it wrote (its temporary file is gone by then)
      gives the same file: the entry is not duplicated and nothing below it
      is lost. */
  lemma ChangelogIdempotent(version: string, remote: string, date: string, branch: string,
                            dateTime: string, prevRef: string, head: string, changes: string,
                            target: Option<string>, tmp: Option<string>)
    requires '\n' !in version && '\n' !in remote && '\n' !in date
    requires '\n' !in branch && '\n' !in dateTime && '\n' !in prevRef && '\n' !in head
    ensures var t := EntryTitle(version, remote, date);
      var h := EntryHeader(branch, dateTime, prevRef, head);
      var first := ChangelogFile(t, h, changes, target, tmp);
      ChangelogFile(t, h, changes, Some(first), None) == first
  {
    var t := EntryTitle(version, remote, date);
    var h := EntryHeader(branch, dateTime, prevRef, head);
    var p := PreambleTitle + "\n\n" + PreambleLine1 + "\n" + PreambleLine2;
    var s := Shift(changes, "###");
    PreambleQuiet(t);
    TitleQuiet(version, remote, date);
    HeaderQuiet(branch, dateTime, prevRef, head, t);
    QuietShifted(changes, "###", "## ", t);
    QuietJoin2(p, t, "## ", t);
    QuietJoin2(p + "\n\n" + t, h, "## ", t);
    QuietJoin2(p + "\n\n" + t + "\n\n" + h, s, "## ", t);
    var x := p + "\n\n" + t + "\n\n" + h + "\n\n" + s;
    assert Head(t, h, changes) == x + "\n\n";
    HeadIdempotent(x, Recovered(target, tmp), "## ", t);
  }
}
