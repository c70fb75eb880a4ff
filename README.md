# apx-changelog, modelled in Dafny

apx-changelog has two Python scripts that turn the commit log of a git
repository into markdown release notes.

- `apxchangelog.py` collects the commits since a reference. It renders them through a Jinja template and cleans up the text. It links issue references and writes a new entry at the top of a changelog file, keeping the older entries below it.
- `changelog.py` is the deploy-time variant. It decides from the `apx` tag of a releases repository whether the current commit is already published. It then generates or reads back the release notes, writes `notes/release-<version>.md`, and rewrites that repository's `CHANGELOG.md` under a fixed preamble.

This project models the deterministic core the two scripts share, and the
points where they differ. It proves what each step promises.

| module (file) | what it models |
|---|---|
| `Wrappers` (wrappers.dfy) | `Option`, and Python's `x or default` on an optional string |
| `Strings` (strings.dfy) | Python `strip`, `lstrip`, `rstrip`, `split`, `join`, `replace`, `splitlines`, `in`, and iteration over a file's lines, on `seq<char>` |
| `CommitModel` (commit.dfy) | `Commit.__init__` and `categorize`, with the subject regular expression `(\w+)(\(\w+\))?:\s*(.*)` under `re.match` |
| `IssueLinks` (links.dfy) | The two issue-link substitutions, with `re.sub`'s leftmost, non-overlapping scan, and changelog.py's `fix_links` |
| `Collection` (collect.dfy) | The stable sort by commit time, the category filter, and the `Commits` class: `groups` and `comments` |
| `Markdown` (postprocess.dfy) | Strip, `\r` removal, the loop collapsing `\n\n\n`, the empty-text placeholder, and the `^#` heading shift under `re.M` |
| `Splice` (splice.dfy) | The line loop with its latching `ok` flag that keeps the old file from its first anchor line; the recovery rename after an interrupted run |
| `GitOutput` (gitderive.dfy) | The version from `git describe`, the branch from `git branch --contains`, and `owner/repo` from the origin URL |
| `ApxChangelog` (apx.dfy) | apxchangelog.py's `Changelog`: `update_changes`, `update_log`, and the `--ver` and `--mkver` tweaks in `main` |
| `DeployChangelog` (deploy.dfy) | changelog.py's `Changelog`: `update`, `update_changes` and `get_changelog`, over a working tree modelled as a map from path to file text |

The variants are kept apart by a `Tool` value (`Apx` or `Deploy`) wherever the scripts differ:

- the comment label's leading newline;
- the link text and URL scheme;
- whether bare `#N` references are linked;
- the heading marker and preamble;
- whether `v` is removed from the version;
- the default branch.

Conventions:

- Whitespace is the set of ASCII characters that `str.isspace()` accepts, and so `str.strip()` and `\s`. That is space, `\t`, `\n`, `\r`, `\v`, `\f` and U+001C to U+001F.
- `\w` is `[A-Za-z0-9_]`.
- `'\n'` is the only line boundary.
- Commit times are integers, and formatted dates are opaque strings.
- The rendered template is a function parameter (`Collection.Renderer`). It receives the sorted and filtered commits, their groups and the optional comments.
- The repository name is cut at the first `.git` in the origin URL, even one inside the name, so `me/me.github.io.git` gives `me/me` (`GitOutput.RepoNameCutInName`).
- A Python exception that escapes the script becomes `None` or a `raised` result:
  - a blank commit message;
  - a missing notes file of a published release.

Where the description of the project and the code disagree, the model follows the code:

- A comment's label is `subject.split('(')[0].strip()`. It is therefore the whole subject (`fix: null pointer`) when the subject has no `(`. It is not the category alone (`Collection.LabelWholeSubject`).
- When `git branch --contains` prints nothing, the split gives one empty line. That line is neither skipped nor replaced, so the branch is `""` rather than the default (`GitOutput.BranchOfEmptyOutput`).

## Model

| member | source | states |
|---|---|---|
| CommitModel.CategorizeSound | apxchangelog.py:80-89 | A match has a word as category and, when present, as scope. The subject is `category[(scope)]:` followed by a rest whose leading whitespace is skipped and whose first line is the description |
| CommitModel.CategorizeComplete | apxchangelog.py:80-89 | Every subject of the form `word[(word)]:rest` is classified with exactly that category and scope (parentheses removed) and the description of `rest` |
| CommitModel.CategorizeRejectsSeparator | apxchangelog.py:80-89 | A word followed by anything other than a word character, `(` or `:` (a space, `!`) is not classified |
| CommitModel.CategorizeRejectsScope | apxchangelog.py:80-89 | A scope whose word is followed by anything other than `)` (such as `-`) is not classified |
| CommitModel.CategorizeNeedsWord | apxchangelog.py:80-89 | A subject that does not start with a word character is not classified (`re.match` anchors at the start) |
| CommitModel.ParseCommitBlank | apxchangelog.py:73-75 | Parsing fails (the script raises on `lines[0]`) exactly when the stripped message is empty |
| CommitModel.ParseCommitFields | apxchangelog.py:69-78 | Date and hash are copied. The subject is the trimmed first line of the stripped message. The comment is the rest, trimmed. The classification is that of the subject |
| CommitModel.SubjectIsOneLine | apxchangelog.py:74-75 | The subject holds no newline and is stripped |
| CommitModel.FixLinksEmpty | changelog.py:70-71 | `fix_links` maps the empty text, and only it, to the empty text, so it does not change when a message is blank |
| Strings.SplitLinesFields | apxchangelog.py:74-77 | For a non-empty text, `splitlines()[0]` is the text before the first newline. The remaining lines joined by `\n` and stripped equal the stripped text after it |
| Strings.StripFacts | apxchangelog.py:73 | `strip()` keeps a sub-multiset of the characters and gives `''` exactly for all-whitespace text |
| IssueLinks.QualifiedAtComplete | apxchangelog.py:187 | `owner/repo#N` with owner in `[a-z+-]+`, repo in `[a-z-]+`, N in `[0-9-]+` (maximal) matches with groups `owner/repo` and `N` |
| IssueLinks.QualifiedAtShape | apxchangelog.py:187 | A match is `owner/repo`, `#` and a non-empty number from `[0-9-]`, and its `owner/repo` part holds no `#` |
| IssueLinks.QualifiedRefLinked | apxchangelog.py:187-194 | After both passes a qualified reference becomes a link to that repository's issue N, and the second pass leaves that link alone |
| IssueLinks.QualifiedLinkStable | apxchangelog.py:187-194 | Text starting with a qualified match becomes its link followed by both passes applied to the rest |
| IssueLinks.LinkBareLeavesNoRef | apxchangelog.py:192-194 | After the bare pass no `#` followed by a digit or `-` remains |
| IssueLinks.ApxLinksLeaveNoRef | apxchangelog.py:185-194 | After both passes no bare reference remains, as long as the releases repository name holds no `#` |
| IssueLinks.BareLinked | apxchangelog.py:192-194 | `#N`, with N the longest run of `[0-9-]`, becomes a link to issue N of the given repository, and the rest of the text is rewritten on its own |
| IssueLinks.ApxBareLinked | apxchangelog.py:185-194 | After both passes, a bare `#N` whose number is digits becomes a link to issue N of the releases repository, and the rest is rewritten on its own |
| IssueLinks.BareFirstPass | apxchangelog.py:187-190 | The qualified pass copies a bare `#N` whose number is digits |
| IssueLinks.BareExample | apxchangelog.py:192-194 | `#42` links to issue 42 of the releases repository |
| IssueLinks.ApxLinksKeepsRefFreeText | apxchangelog.py:185-194 | Text without any `#N` is unchanged by both passes, so headings survive |
| IssueLinks.NoHashNoRef | apxchangelog.py:192 | Text with no `#` has no bare reference |
| IssueLinks.LinkQualifiedAbsent | changelog.py:77-81 | Text with no qualified match is unchanged by `fix_links` |
| IssueLinks.NoSlashNoQualified | apxchangelog.py:187 | Text with no `/` has no qualified match |
| IssueLinks.FixLinksBareExample | changelog.py:77-81 | `fix_links` leaves a bare `#7` alone: changelog.py has no bare pass |
| IssueLinks.ApxLinksNonEmpty | apxchangelog.py:185-194 | Linking never empties a non-empty text |
| Collection.ParseAllFails | apxchangelog.py:156 | Mapping `Commit` over the log fails exactly when some message is blank |
| Collection.ParseAllAt | apxchangelog.py:156 | Otherwise entry `i` is commit `i` parsed |
| Collection.SortSorted | apxchangelog.py:157 | The sort by date gives non-decreasing dates |
| Collection.SortPermutes | apxchangelog.py:157 | The sort is a permutation |
| Collection.SortStable | apxchangelog.py:157 | The sort is stable: commits with equal dates keep their order |
| Collection.ClassifiedAll | apxchangelog.py:158 | The filter keeps exactly the classified commits: each classified commit as often as the input holds it, and no unclassified one |
| Collection.ClassifiedAppend | apxchangelog.py:158 | The filter works commit by commit, so the kept commits keep their input order |
| Collection.ClassifiedSorted | apxchangelog.py:157-158 | Filtering keeps the date order |
| Collection.Commits.constructor | apxchangelog.py:46-57 | The loop builds `groups` equal to `GroupsOf` of the commits and `comments` equal to the labels of the commented commits, in order |
| Collection.Commits.AddCommit | apxchangelog.py:59-60 | Appends the commit to the list of its category, an absent key reading as the empty list |
| Collection.GroupsOfSnoc | apxchangelog.py:53-60 | One loop step: adding a commit extends exactly its own category's list |
| Collection.GroupExact | apxchangelog.py:59-60 | A group holds each commit of its category as often as the input does, and no other commit |
| Collection.GroupSorted | changelog.py:56-57 | A group of a date-sorted input is date-sorted |
| Collection.NoNoneKey | apxchangelog.py:158-159 | After the filter no commit is grouped under `None` |
| Collection.GroupSizesSum | apxchangelog.py:53-60 | Over distinct keys covering every category, the group sizes sum to the number of commits |
| Collection.CommentsCount | apxchangelog.py:53-57 | Entry `i` of the comments is the label of the `i`-th commented commit. The commented commits are exactly those with a non-empty comment, each as often as the input holds it |
| Collection.LabelScoped | apxchangelog.py:57 | For a subject `cat(scope): …` the label text is the category |
| Collection.LabelWholeSubject | changelog.py:54 | For a subject without `(` the label text is the whole subject |
| Markdown.Collapse | apxchangelog.py:178-179 | The loop terminates with the squeezed text, which holds no `\n\n\n` |
| Markdown.SqueezeCollapseOnce | apxchangelog.py:178-179 | One `replace('\n\n\n', '\n\n')` pass does not change the squeezed result, which is the loop's invariant |
| Markdown.SqueezeNoTriple | apxchangelog.py:178-179 | The squeezed text holds no three newlines in a row |
| Markdown.SqueezeFixed | apxchangelog.py:178 | Text without a triple newline is left as it is |
| Markdown.SqueezeIdempotent | apxchangelog.py:178-179 | Collapsing twice is collapsing once |
| Markdown.SqueezeChars | apxchangelog.py:178-179 | Only newlines are removed: every other character occurs as often as before |
| Markdown.CleanedText | changelog.py:276-281 | The text `get_changelog` returns is stripped, has no `\r` and no triple newline |
| Markdown.Placeholder | apxchangelog.py:181-183 | Non-empty text is kept, and empty text becomes the placeholder |
| Markdown.ShiftByLines | apxchangelog.py:230 | `re.sub('^#', m, s, flags=re.M)` is the line-by-line rewrite of a leading `#` into `m` |
| Markdown.ShiftLineHeading | apxchangelog.py:230 | A heading line gains exactly the extra `#`s and keeps the rest |
| Markdown.ShiftPlain | apxchangelog.py:230 | Text none of whose lines starts with `#` is unchanged |
| Markdown.ShiftLineCount | apxchangelog.py:230 | The shift keeps the number of lines |
| Markdown.ShiftTwice | apxchangelog.py:230-234 | Shifting by `##` twice (content, then again under a preamble) equals shifting by `###` |
| Markdown.ShiftJoin | apxchangelog.py:228-234 | The shift distributes over lines joined by a newline |
| Splice.CopyTail | apxchangelog.py:243-251 | The loop with the latching `ok` flag writes exactly the lines from the first anchor on |
| Splice.WriteFile | apxchangelog.py:227-256 | The new file is the head followed by the old file's kept tail, or the head alone when there is no old file |
| Splice.SplicedShape | apxchangelog.py:242-251 | The kept tail is `old[k:]`, byte for byte, where no line before `k` is an anchor and line `k`, if any, is |
| Splice.TailKeepsLaterLines | apxchangelog.py:245-251 | Once copying starts it never stops: every later line, an older copy of the same entry included, is kept |
| Splice.SpliceIdempotent | apxchangelog.py:227-251 | Splicing the same head into the spliced file gives the same file, when no line of the head is an anchor |
| Splice.HeadIdempotent | apxchangelog.py:227-251 | The same for a head that is a quiet text followed by a blank line |
| Splice.QuietShifted | apxchangelog.py:230-238 | No shifted line is an anchor: a heading moved one level deeper no longer has the anchor's level |
| Splice.Recovered | changelog.py:223-225 | After an interrupted run the temporary file takes the place of a missing `CHANGELOG.md`, and an existing one is kept |
| GitOutput.VersionFacts | changelog.py:133-140 | The version is never empty, has no `-` and at most two dots, and in changelog.py no `v` |
| GitOutput.VersionOfTagDeploy | changelog.py:133-140 | `vA.B.C` and `vA.B.C-N-gHASH` give `A.B.C` |
| GitOutput.VersionOfTagApx | apxchangelog.py:129-136 | The same outputs give `vA.B.C` in apxchangelog.py |
| GitOutput.SelectBranch | changelog.py:114-122 | The loop with `continue` and `break` gives the first line that, cleaned of `*` and spaces, starts with neither `(` nor `HEAD`, or the default. The result has no space or `*` unless it is the default |
| GitOutput.BranchFirst | changelog.py:114-122 | The branch is the first kept line: every line before it is skipped |
| GitOutput.BranchDefault | apxchangelog.py:111-119 | The default stays when every line is skipped (the converse is `GitOutput.BranchFirst`) |
| GitOutput.BranchOfEmptyOutput | apxchangelog.py:112-119 | Empty output gives the empty branch, not the default |
| GitOutput.RepoNameOf | apxchangelog.py:106-107 | `host:owner/repo` and `https://host/owner/repo`, followed by nothing, by `.git` or by any text starting with `.git`, give `owner/repo`. Dots are allowed, provided `.git` occurs neither in the host nor in `owner/repo`, because the URL is cut at its first `.git` |
| GitOutput.RepoNameCutInName | apxchangelog.py:106-107 | A name holding `.git` is cut there: `git@github.com:me/me.github.io.git` gives `me/me` |
| Wrappers.OrElse | apxchangelog.py:141-142 | A missing or empty option falls back to the default |
| ApxChangelog.Changelog.constructor | apxchangelog.py:99-137 | Sets the repository name, branch (default `main`), commit, date, and version derived from git's output; `changes` starts empty |
| ApxChangelog.Changelog.OverrideVersion | apxchangelog.py:283-284 | `--ver X` sets the version to `vX`; otherwise nothing changes |
| ApxChangelog.Changelog.UpdateChanges | apxchangelog.py:139-196 | Records the releases repository (or the own one), the reference and its hash. `raised` holds exactly when parsing a commit raises, and `changes` then stays `''`. Otherwise `changes` becomes the linked, cleaned rendering |
| ApxChangelog.Generate | apxchangelog.py:156-196 | The step-by-step pipeline (the `Commits` object, rendering, collapse loop, placeholder, links) computes `Changes` of the rendering |
| ApxChangelog.ChangesNonEmpty | apxchangelog.py:181-183 | The final `changes` is never empty |
| ApxChangelog.ChangesPlaceholder | apxchangelog.py:181-183 | An empty cleaned rendering gives `Security updates` |
| ApxChangelog.ChangesLinked | apxchangelog.py:185-194 | The final `changes` holds no bare issue reference |
| ApxChangelog.CleanedFacts | apxchangelog.py:176-181 | The cleaned rendering is stripped, `\r`-free and without triple newlines |
| ApxChangelog.CleanChangesKept | apxchangelog.py:176-194 | An already clean, non-empty rendering without `#` comes out unchanged |
| ApxChangelog.Changelog.UpdateLog | apxchangelog.py:198-256 | The file written is `LogFile` of the entry title (default title `Release`), the header, `changes`, the preamble and the old file |
| ApxChangelog.EntryTitleLine | apxchangelog.py:204-205 | The entry title is one line starting with `#` |
| ApxChangelog.EntryHeaderPlain | apxchangelog.py:207-215 | No line of the header is a heading: they are quotations |
| ApxChangelog.ContentQuiet | apxchangelog.py:228-238 | Without a preamble no line of the new entry but its title is an anchor for `# ` |
| ApxChangelog.ShiftedContent | apxchangelog.py:232-236 | Under a preamble the entry is shifted once more, the title gaining one `#` |
| ApxChangelog.ShiftedContentQuiet | apxchangelog.py:232-238 | Under a preamble no line of the shifted entry is an anchor for `## ` |
| ApxChangelog.LogKeepsTail | apxchangelog.py:238-251 | Without a preamble the file is the entry followed by `old[k:]`, `k` the first line starting `# ` but not with the title |
| ApxChangelog.LogIdempotent | apxchangelog.py:227-256 | Writing the same entry twice gives the same file, when the preamble has no anchor line |
| ApxChangelog.UpdateLogIdempotent | apxchangelog.py:198-256 | The same for the title and header `update_log` composes |
| ApxChangelog.Changelog.WriteVersion | apxchangelog.py:300-302 | `--mkver` writes the version without its `v` characters |
| ApxChangelog.MkVerOverride | apxchangelog.py:283-302 | After `--ver X`, `--mkver` writes `X` back when `X` has no `v` |
| DeployChangelog.Changelog.constructor | changelog.py:102-162 | Sets the remote (default `uavos/apx-releases`), branch (default `master`), commit, date and version; `changes` is `None` and nothing is published |
| DeployChangelog.PrevRef | changelog.py:169-172 | The previous reference is the first line of the stripped `apx` tag message, or `''` without the tag |
| DeployChangelog.Changelog.Update | changelog.py:164-196 | Once `changes` is non-empty nothing changes. Otherwise `published` holds exactly when the tag's first line is the commit. A published release reads the notes back, and a missing notes file raises. An unpublished one writes `CHANGELOG.md` and the notes shifted by `####`, and stages both |
| DeployChangelog.Changelog.WriteNotes | changelog.py:186-192 | The generated changes, every heading three levels deeper, go to `notes/release-<version>.md` and are staged |
| DeployChangelog.Changelog.ReadNotes | changelog.py:193-196 | The notes file's text becomes `changes`; a missing file raises |
| DeployChangelog.DeployChanges | changelog.py:198-205 | The log is not consulted when the reference is empty. An empty result becomes the dated placeholder, so the result is never empty. Parsing can fail only when the log is read |
| DeployChangelog.Changelog.UpdateChanges | changelog.py:198-251 | Returns `DeployChanges`; `CHANGELOG.md` becomes the new file, the temporary file is gone, and `CHANGELOG.md` is staged |
| DeployChangelog.Changelog.WriteChangelog | changelog.py:223-248 | After the recovery rename, the head and the old file's tail go to the temporary file, which then replaces `CHANGELOG.md` |
| DeployChangelog.AfterUpdateChanges | changelog.py:223-248 | No temporary file remains, `CHANGELOG.md` exists, and every other file is untouched |
| DeployChangelog.Changelog.GetChangelog | changelog.py:253-281 | Parses, sorts, filters, groups, renders and collapses: the text is `ChangelogText`, stripped, `\r`-free and without triple newlines |
| DeployChangelog.ChangelogText | changelog.py:253-281 | Fails exactly when parsing the log fails |
| DeployChangelog.ChangelogKeepsTail | changelog.py:227-248 | The file is the preamble, title, header and changes, followed by `old[k:]`, `k` the first line starting `## ` but not with the title. The old file is the recovered one |
| DeployChangelog.HeaderQuiet | changelog.py:215-221 | No header line is an anchor for `## ` |
| DeployChangelog.PreambleQuiet | changelog.py:228-230 | No line of the fixed preamble is an anchor for `## ` |
| DeployChangelog.TitleQuiet | changelog.py:211-213 | The title is one line and does not count as an anchor for itself |
| DeployChangelog.ChangelogIdempotent | changelog.py:207-248 | Running `update_changes` again with the same title, header and changes on the file it wrote gives the same file |

## Left out

- GitPython is not modelled. What git prints (origin URL, `branch --contains`, `rev-parse`, `describe`, the commit list, the `apx` tag message) is taken as input. This covers the clone or pull of the releases repository, `publish()` (commit, tags, push), and the `rev_parse(from_ref)` call.
- The `GitCommandError` fallback of apxchangelog.py (lines 150-154), which re-reads the whole history, is left out with the git calls.
- The Jinja template `changes.jinja2` is not part of this model. Its output is the `Renderer` parameter, so category order and bullet format are not stated.
- `datetime.fromtimestamp` and the locale-dependent `strftime` are left out. Dates are integers for sorting and opaque strings in titles and headers.
- File system effects are not modelled as the OS performs them:
  - apxchangelog.py's old file, preamble and new file are texts.
  - changelog.py's working tree is a map from path to text.
  - `exists`, `unlink`, `rename` and `makedirs` become map updates, and their atomicity is not modelled.
- `argparse`, `print`, the `Main` glue and `setup.py` are left out. Only the `--ver` and `--mkver` tweaks of `main` are modelled.
- Unicode is simplified:
  - `\w` is ASCII only.
  - `strip` and `\s` use the ASCII whitespace above. Non-ASCII whitespace, such as U+0085 and U+00A0, is not whitespace in the model.
  - `splitlines` and universal newlines split at `'\n'` only.
- Timestamps compare as unbounded integers, with no platform range.
- Markdown.SqueezeChars: counts every character other than `\n` but does not state that their order is kept. The exact rewrite is `Squeeze`'s definition, which `Markdown.Collapse` is proved equal to.
- IssueLinks.ApxLinksLeaveNoRef: needs a releases repository name without `#`. A name with `#` would put a reference back into the links, and real repository names hold no `#`.
- IssueLinks.ApxBareLinked: covers numbers made of digits only. A `-` in the number can start a qualified match of the first pass (`#1-ab/cd#3` holds the match `-ab/cd#3`), so for such numbers only `IssueLinks.BareLinked`, which covers the second pass alone, is stated.
- IssueLinks.LinkBare: inserts the releases repository name literally. apxchangelog.py:194 passes it through `re.sub`'s replacement template, where a `\` would start an escape, but repository names hold no backslash.
