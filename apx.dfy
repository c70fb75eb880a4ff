/** apxchangelog.py: the `Changelog` object that collects the changes of a
    repository since a reference and writes them at the top of a changelog
    file, optionally below a `.changelog` preamble. */
module ApxChangelog {
  import opened Wrappers
  import opened Strings
  import opened CommitModel
  import opened Collection
  import opened Markdown
  import opened IssueLinks
  import opened Splice
  import opened GitOutput

  const EmptyChanges := "Security updates"

  /** The rendered text stripped, without carriage returns, with its blank
      lines collapsed, and stripped again. */
  function Cleaned(rendered: string): string {
    Strip(Squeeze(RemoveCR(Strip(rendered))))
  }

  /** The final `changes` of `update_changes`: the cleaned text, the
      placeholder if that is empty, and its issue references linked. */
  function Changes(rendered: string, releasesRepo: string): string {
    ApxLinks(Placeholder(Cleaned(rendered), EmptyChanges), releasesRepo)
  }

  /** `# [T V](https://github.com/R/releases/tag/V') (D)`, where `V'` is the
      version with each `v` spelled `release-`. */
  function EntryTitle(title: string, version: string, releasesRepo: string, date: string): string {
    "# [" + title + " " + version + "](https://github.com/" + releasesRepo + "/releases/tag/" +
    Replace(version, "v", "release-") + ") (" + date + ")"
  }

  /** The quoted header: branch and date, and the diff link when the
      reference resolved to a commit. Backslash-newline is a markdown hard
      line break. */
  function EntryHeader(branch: string, dateTime: string, repoName: string, fromHexsha: string,
                       head: string): string {
    BranchLine(branch) + "\n" + DateLine(dateTime) +
    (if fromHexsha != "" then "\\" + "\n" + DiffLine(repoName, fromHexsha, head) else "")
  }

  /** The header's first line, ending in a hard line break. */
  function BranchLine(branch: string): string {
    "> Branch: `" + branch + "`" + "\\"
  }

  /** The header's date line, without its line break. */
  function DateLine(dateTime: string): string {
    "> Date: `" + dateTime + "`"
  }

  /** The header's diff line: a link comparing the two commits. */
  function DiffLine(repoName: string, fromHexsha: string, head: string): string {
    "> Diff: [" + repoName + "](https://github.com/" + repoName + "/compare/" + fromHexsha + "..." + head + ")"
  }

  /** The new entry: title, header and the changes with every heading one
      level deeper. */
  function Content(entryTitle: string, header: string, changes: string): string {
    entryTitle + "\n\n" + header + "\n\n" + Shift(changes, "##") + "\n\n"
  }

  /** The new changelog file. With a non-empty `.changelog` preamble the
      preamble comes first, the entry is shifted one more level and the old
      file is kept from its first `## ` line; otherwise from its first `# `
      line. Either way a line that starts with the (shifted) title does not
      start the copy. */
  function LogFile(entryTitle: string, header: string, changes: string, tmpl: Option<string>,
                   prev: Option<string>): string {
    var content := Content(entryTitle, header, changes);
    var preamble := if tmpl.Some? then Strip(tmpl.value) else "";
    if preamble != "" then
      Spliced(preamble + "\n\n" + Shift(content, "##"), prev, "## ", "#" + entryTitle)
    else
      Spliced(content, prev, "# ", entryTitle)
  }

  /** `--mkver`: the version with its `v` characters removed. */
  function MkVer(version: string): (r: string)
    ensures 'v' !in r
  {
    ReplaceCharChars(version, 'v', "");
    Replace(version, "v", "")
  }

  /** The pipeline of `update_changes` after parsing: sort, filter, group,
      render, clean, collapse, the placeholder and the links. */
  method Generate(parsed: seq<Commit>, doComments: bool, render: Renderer, releasesRepo: string)
    returns (changes: string)
    ensures changes == Changes(Rendered(parsed, doComments, render, Apx), releasesRepo)
  {
    var kept := Classified(SortByDate(parsed));
    var commits := new Commits(kept, Apx);
    var comments := if doComments then Some(commits.comments) else None;
    var text := RemoveCR(Strip(render(commits.commits, commits.groups, comments)));
    var collapsed := Collapse(text);
    var cleaned := Strip(collapsed);
    changes := ApxLinks(Placeholder(cleaned, EmptyChanges), releasesRepo);
  }

  class Changelog {
    var changes: string
    const repoName: string
    const branch: string
    const commit: string
    const headHexsha: string
    const date: string
    const dateTime: string
    var version: string
    var fromRef: string
    var fromHexsha: string
    var releasesRepoName: string

    /** `Changelog.__init__`, from what git prints: the origin URL, the output
        of `git branch --contains`, `git rev-parse HEAD`, the head commit's
        hash and its date formatted as `%x` and `%x %X`, and `git describe`.
        The script asserts that the version is not empty. */
    constructor (originUrl: string, branchOutput: string, revParseHead: string, headHexsha: string,
                 date: string, dateTime: string, describe: string)
      requires Version(describe, Apx).Some?
      ensures changes == "" && repoName == RepoName(originUrl)
      ensures branch == Branch(branchOutput, "main")
      ensures commit == revParseHead && this.headHexsha == headHexsha
      ensures this.date == date && this.dateTime == dateTime
      ensures version == Version(describe, Apx).value
      ensures fromRef == "" && fromHexsha == "" && releasesRepoName == ""
    {
      changes := "";
      repoName := RepoName(originUrl);
      var b := SelectBranch(branchOutput, "main");
      branch := b;
      commit := revParseHead;
      this.headHexsha := headHexsha;
      this.date := date;
      this.dateTime := dateTime;
      version := Version(describe, Apx).value;
      fromRef := "";
      fromHexsha := "";
      releasesRepoName := "";
    }

    /** `--ver`: a given version replaces the derived one, with a `v` in
        front. */
    method OverrideVersion(ver: Option<string>)
      modifies this
      ensures ver.Some? && ver.value != "" ==> version == "v" + ver.value
      ensures ver.None? || ver.value == "" ==> version == old(version)
      ensures changes == old(changes)
      ensures fromRef == old(fromRef) && fromHexsha == old(fromHexsha)
      ensures releasesRepoName == old(releasesRepoName)
    {
      if ver.Some? && ver.value != "" {
        version := "v" + ver.value;
      }
    }

    /** `update_changes`: `raws` are the commits git lists after `fromRef`
        and `fromHexsha` is what `git rev-parse fromRef` prints. A blank
        commit message makes the script raise after `changes` was reset;
        `raised` reports it, and the script writes nothing after it. */
    method UpdateChanges(fromRef: string, fromHexsha: string, raws: seq<RawCommit>, doComments: bool,
                         releases: Option<string>, render: Renderer) returns (raised: bool)
      modifies this
      ensures raised <==> ParseAll(raws, Apx).None?
      ensures releasesRepoName == OrElse(releases, repoName)
      ensures this.fromRef == fromRef && this.fromHexsha == fromHexsha
      ensures ParseAll(raws, Apx).None? ==> changes == ""
      ensures ParseAll(raws, Apx).Some? ==>
        changes == Changes(Rendered(ParseAll(raws, Apx).value, doComments, render, Apx), releasesRepoName)
      ensures version == old(version)
    {
      releasesRepoName := if releases.Some? && releases.value != "" then releases.value else repoName;
      this.fromRef := fromRef;
      this.fromHexsha := fromHexsha;
      changes := "";
      var parsed := ParseAll(raws, Apx);
      raised := parsed.None?;
      if parsed.Some? {
        changes := Generate(parsed.value, doComments, render, releasesRepoName);
      }
    }

    /** `update_log`: the new text of the changelog file, given the
        `.changelog` preamble and the old file when they exist. */
    method UpdateLog(title: Option<string>, releases: Option<string>, tmpl: Option<string>,
                     prev: Option<string>) returns (file: string)
      ensures file == LogFile(EntryTitle(OrElse(title, "Release"), version, OrElse(releases, repoName), date),
                              EntryHeader(branch, dateTime, repoName, fromHexsha, headHexsha),
                              changes, tmpl, prev)
    {
      var releasesRepo := if releases.Some? && releases.value != "" then releases.value else repoName;
      var name := if title.Some? && title.value != "" then title.value else "Release";
      var entryTitle := EntryTitle(name, version, releasesRepo, date);
      var header := EntryHeader(branch, dateTime, repoName, fromHexsha, headHexsha);
      var content := Content(entryTitle, header, changes);
      var preamble := if tmpl.Some? then Strip(tmpl.value) else "";
      if preamble != "" {
        file := WriteFile(preamble + "\n\n" + Shift(content, "##"), prev, "## ", "#" + entryTitle);
      } else {
        file := WriteFile(content, prev, "# ", entryTitle);
      }
    }

    /** `--mkver`: the text written to the version file. */
    method WriteVersion() returns (text: string)
      ensures text == MkVer(version)
    {
      text := Replace(version, "v", "");
    }
  }

  // ---------------------------------------------------------------------------
  // Lemmas: changes

  /** The changes are never empty. */
  lemma ChangesNonEmpty(rendered: string, releasesRepo: string)
    ensures Changes(rendered, releasesRepo) != ""
  {
    ApxLinksNonEmpty(Placeholder(Cleaned(rendered), EmptyChanges), releasesRepo);
  }

  /** The changes hold no unlinked `#N` once the releases repository name
      holds no `#`. */
  lemma ChangesLinked(rendered: string, releasesRepo: string)
    requires '#' !in releasesRepo
    ensures !HasBareRef(Changes(rendered, releasesRepo))
  {
    ApxLinksLeaveNoRef(Placeholder(Cleaned(rendered), EmptyChanges), releasesRepo);
  }

  /** An empty cleaned rendering gives the placeholder, whatever the
      releases repository. */
  lemma ChangesPlaceholder(rendered: string, releasesRepo: string)
    requires Cleaned(rendered) == ""
    ensures Changes(rendered, releasesRepo) == EmptyChanges
  {
    NoHashNoRef(EmptyChanges);
    ApxLinksKeepsRefFreeText(EmptyChanges, releasesRepo);
  }

  /** The cleaned rendering is stripped, has no carriage return and no three
      newlines in a row, and is the rendering with exactly those edits. */
  lemma CleanedFacts(rendered: string)
    ensures var t := Cleaned(rendered);
      IsStripped(t) && '\r' !in t && !HasTriple(t) && t == Squeeze(RemoveCR(Strip(rendered)))
  {
    CleanedText(rendered);
  }

  /** A rendering that is already clean and free of issue references is
      kept word for word. */
  lemma CleanChangesKept(rendered: string, releasesRepo: string)
    requires rendered != "" && IsStripped(rendered) && '\r' !in rendered && !HasTriple(rendered)
    requires '#' !in rendered
    ensures Changes(rendered, releasesRepo) == rendered
  {
    ContainsChar(rendered, '\r');
    ReplaceAbsent(rendered, "\r", "");
    SqueezeFixed(rendered);
    NoHashNoRef(rendered);
    ApxLinksKeepsRefFreeText(rendered, releasesRepo);
  }

  // ---------------------------------------------------------------------------
  // Lemmas: the changelog file

  /** `--mkver` after `--ver`: the given version comes back. */
  lemma MkVerOverride(ver: string)
    requires 'v' !in ver
    ensures MkVer("v" + ver) == ver
  {
    ReplaceCharAppend("v", ver, 'v', "");
    assert Replace("v", "v", "") == "";
    NoCharReplace(ver, 'v', "");
  }

  /** The title is one line and a heading. */
  lemma EntryTitleLine(title: string, version: string, releasesRepo: string, date: string)
    requires '\n' !in title && '\n' !in version && '\n' !in releasesRepo && '\n' !in date
    ensures var t := EntryTitle(title, version, releasesRepo, date);
      '\n' !in t && |t| > 0 && t[0] == '#'
  {
    ReplaceCharChars(version, 'v', "release-");
  }

  /** Two lines joined by a newline split back into those two lines. */
  lemma SplitTwo(a: string, b: string)
    requires '\n' !in a && '\n' !in b
    ensures Split(a + "\n" + b, '\n') == [a, b]
  {
    SplitNone(a, '\n');
    SplitNone(b, '\n');
    assert a + "\n" + b == a + ['\n'] + b;
    SplitAppend(a, b, '\n');
  }

  /** Every line of the header is a quotation, so none is a heading. */
  lemma EntryHeaderPlain(branch: string, dateTime: string, repoName: string, fromHexsha: string, head: string)
    requires '\n' !in branch && '\n' !in dateTime && '\n' !in repoName && '\n' !in fromHexsha && '\n' !in head
    ensures var h := EntryHeader(branch, dateTime, repoName, fromHexsha, head);
      forall i :: 0 <= i < |Split(h, '\n')| ==> Plain(Split(h, '\n')[i])
  {
    var b := BranchLine(branch);
    if fromHexsha != "" {
      var d := DateLine(dateTime) + "\\";
      var x := DiffLine(repoName, fromHexsha, head);
      assert EntryHeader(branch, dateTime, repoName, fromHexsha, head) == b + "\n" + (d + "\n" + x);
      SplitTwo(d, x);
      SplitNone(b, '\n');
      assert b + "\n" + (d + "\n" + x) == b + ['\n'] + (d + "\n" + x);
      SplitAppend(b, d + "\n" + x, '\n');
      assert Split(EntryHeader(branch, dateTime, repoName, fromHexsha, head), '\n') == [b, d, x];
    } else {
      assert EntryHeader(branch, dateTime, repoName, "", head) == b + "\n" + DateLine(dateTime) + "";
      assert b + "\n" + DateLine(dateTime) + "" == b + "\n" + DateLine(dateTime);
      SplitTwo(b, DateLine(dateTime));
    }
  }

  /** Without a preamble, the entry's text before its closing blank line is
      quiet for `# ` and the title. */
  lemma ContentQuiet(t: string, h: string, changes: string)
    requires '\n' !in t && |t| > 0 && t[0] == '#'
    requires forall i :: 0 <= i < |Split(h, '\n')| ==> Plain(Split(h, '\n')[i])
    ensures Quiet(t + "\n\n" + h + "\n\n" + Shift(changes, "##"), "# ", t)
  {
    assert StartsWith(t, t);
    QuietLine(t, "# ", t);
    QuietPlain(h, "# ", t);
    QuietShifted(changes, "##", "# ", t);
    QuietJoin2(t, h, "# ", t);
    QuietJoin2(t + "\n\n" + h, Shift(changes, "##"), "# ", t);
  }

  /** Shifting the entry below a preamble: the title gains a `#`, the header
      stays, and the changes end up shifted by `###`. */
  lemma ShiftedContent(t: string, h: string, changes: string)
    requires '\n' !in t && |t| > 0 && t[0] == '#'
    requires forall i :: 0 <= i < |Split(h, '\n')| ==> Plain(Split(h, '\n')[i])
    ensures Shift(Content(t, h, changes), "##") ==
      ("#" + t) + "\n\n" + h + "\n\n" + Shift(changes, "###") + "\n\n"
  {
    var s := Shift(changes, "##");
    var x := t + "\n\n" + h + "\n\n" + s;
    assert Content(t, h, changes) == x + "\n\n" + "";
    ShiftJoin2(x, "", "##");
    assert Shift("", "##") == "";
    ShiftJoin2(t + "\n\n" + h, s, "##");
    ShiftJoin2(t, h, "##");
    ShiftHeadingLine(t, "##");
    assert "##" + t[1..] == "#" + t;
    ShiftPlain(h, "##");
    ShiftTwice(changes);
  }

  /** With a preamble, the shifted entry before its closing blank line is
      quiet for `## ` and the shifted title. */
  lemma ShiftedContentQuiet(t: string, h: string, changes: string)
    requires '\n' !in t && |t| > 0 && t[0] == '#'
    requires forall i :: 0 <= i < |Split(h, '\n')| ==> Plain(Split(h, '\n')[i])
    ensures Quiet(("#" + t) + "\n\n" + h + "\n\n" + Shift(changes, "###"), "## ", "#" + t)
  {
    var t2 := "#" + t;
    assert StartsWith(t2, t2);
    QuietLine(t2, "## ", t2);
    QuietPlain(h, "## ", t2);
    QuietShifted(changes, "###", "## ", t2);
    QuietJoin2(t2, h, "## ", t2);
    QuietJoin2(t2 + "\n\n" + h, Shift(changes, "###"), "## ", t2);
  }

  /** Running `update_log` again with the same title, version, date and
      changes on the file it wrote gives the same file: the new entry is
      written once, and the old copy of it is not carried over. The preamble,
      if any, must not have a line that starts the copy. */
  lemma LogIdempotent(t: string, h: string, changes: string, tmpl: Option<string>, prev: Option<string>)
    requires '\n' !in t && |t| > 0 && t[0] == '#'
    requires forall i :: 0 <= i < |Split(h, '\n')| ==> Plain(Split(h, '\n')[i])
    requires tmpl.Some? && Strip(tmpl.value) != "" ==> Quiet(Strip(tmpl.value), "## ", "#" + t)
    ensures LogFile(t, h, changes, tmpl, Some(LogFile(t, h, changes, tmpl, prev))) ==
      LogFile(t, h, changes, tmpl, prev)
  {
    var preamble := if tmpl.Some? then Strip(tmpl.value) else "";
    if preamble != "" {
      var y := ("#" + t) + "\n\n" + h + "\n\n" + Shift(changes, "###");
      ShiftedContent(t, h, changes);
      ShiftedContentQuiet(t, h, changes);
      QuietJoin2(preamble, y, "## ", "#" + t);
      assert preamble + "\n\n" + Shift(Content(t, h, changes), "##") == (preamble + "\n\n" + y) + "\n\n";
      HeadIdempotent(preamble + "\n\n" + y, prev, "## ", "#" + t);
    } else {
      ContentQuiet(t, h, changes);
      HeadIdempotent(t + "\n\n" + h + "\n\n" + Shift(changes, "##"), prev, "# ", t);
    }
  }

  /** The same for the title and header the script builds, when none of the
      values put into them holds a newline. */
  lemma UpdateLogIdempotent(title: string, version: string, releasesRepo: string, date: string,
                            branch: string, dateTime: string, repoName: string, fromHexsha: string,
                            head: string, changes: string, tmpl: Option<string>, prev: Option<string>)
    requires '\n' !in title && '\n' !in version && '\n' !in releasesRepo && '\n' !in date
    requires '\n' !in branch && '\n' !in dateTime && '\n' !in repoName && '\n' !in fromHexsha && '\n' !in head
    requires var t := EntryTitle(title, version, releasesRepo, date);
      tmpl.Some? && Strip(tmpl.value) != "" ==> Quiet(Strip(tmpl.value), "## ", "#" + t)
    ensures var t := EntryTitle(title, version, releasesRepo, date);
      var h := EntryHeader(branch, dateTime, repoName, fromHexsha, head);
      LogFile(t, h, changes, tmpl, Some(LogFile(t, h, changes, tmpl, prev))) == LogFile(t, h, changes, tmpl, prev)
  {
    EntryTitleLine(title, version, releasesRepo, date);
    EntryHeaderPlain(branch, dateTime, repoName, fromHexsha, head);
    LogIdempotent(EntryTitle(title, version, releasesRepo, date),
                  EntryHeader(branch, dateTime, repoName, fromHexsha, head), changes, tmpl, prev);
  }

  /** The old file is kept from its first line that starts with `# ` (or `## `
      below a preamble) but not with the title, byte for byte; a missing old
      file contributes nothing. */
  lemma LogKeepsTail(t: string, h: string, changes: string, prev: Option<string>)
    ensures prev.None? ==> LogFile(t, h, changes, None, prev) == Content(t, h, changes)
    ensures prev.Some? ==>
      var lines := Lines(prev.value);
      var k := FirstAnchor(lines, "# ", t);
      LogFile(t, h, changes, None, prev) == Content(t, h, changes) + Concat(lines[k..]) &&
      (forall i :: 0 <= i < k ==> !(StartsWith(lines[i], "# ") && !StartsWith(lines[i], t))) &&
      (k < |lines| ==> StartsWith(lines[k], "# ") && !StartsWith(lines[k], t))
  {
    SplicedShape(Content(t, h, changes), prev, "# ", t);
  }
}
