/** The values both scripts derive from the text git prints: the version from
    `git describe`, the branch from `git branch --contains`, and `owner/repo`
    from the origin URL. */
module GitOutput {
  import opened Wrappers
  import opened Strings
  import opened CommitModel

  /** Python `parts[:n]`. */
  function Take(parts: seq<string>, n: nat): (r: seq<string>)
    ensures |r| == if |parts| <= n then |parts| else n
    ensures r == parts[..|r|]
  {
    if |parts| <= n then parts else parts[..n]
  }

  /** Python `parts[-2:]`. */
  function LastTwo(parts: seq<string>): (r: seq<string>)
    ensures |r| == if |parts| <= 2 then |parts| else 2
    ensures r == parts[|parts| - |r|..]
  {
    if |parts| <= 2 then parts else parts[|parts| - 2..]
  }

  // ---------------------------------------------------------------------------
  // Version

  /** `'.'.join(describe.strip()[.replace('v', '')].replace('-', '.').split('.')[:3]).strip()`;
      only changelog.py removes the `v` characters. `None` is the empty
      result the script rejects with an assert. */
  function Version(describe: string, tool: Tool): Option<string> {
    var d := Strip(describe);
    var e := if tool == Deploy then Replace(d, "v", "") else d;
    var v := Strip(Join(Take(Split(Replace(e, "-", "."), '.'), 3), "."));
    if v == "" then None else Some(v)
  }

  predicate IsDigits(s: string) {
    |s| > 0 && forall i :: 0 <= i < |s| ==> '0' <= s[i] <= '9'
  }

  /** A derived version is never empty, holds no `-` and at most two dots, and
      in changelog.py holds no `v`. */
  lemma VersionFacts(describe: string, tool: Tool, v: string)
    requires Version(describe, tool) == Some(v)
    ensures v != ""
    ensures '-' !in v
    ensures multiset(v)['.'] <= 2
    ensures tool == Deploy ==> 'v' !in v
  {
    var d := Strip(describe);
    var e := if tool == Deploy then Replace(d, "v", "") else d;
    var f := Replace(e, "-", ".");
    var parts := Take(Split(f, '.'), 3);
    var j := Join(parts, ".");
    assert v == Strip(j);
    StripFacts(j);
    ReplaceCharChars(e, '-', ".");
    SplitAvoids(f, '.', '-');
    JoinAvoids(parts, ".", '-');
    assert '-' !in j;
    assert multiset(j)['-'] == 0;
    JoinCount(parts, '.');
    if tool == Deploy {
      ReplaceCharChars(d, 'v', "");
      ReplaceCharChars(e, '-', ".");
      SplitAvoids(f, '.', 'v');
      JoinAvoids(parts, ".", 'v');
      assert multiset(j)['v'] == 0;
    }
  }

  /** `git describe` of a commit `-N-gHASH` past a tag `vA.B.C`, and of the
      tag itself, gives `vA.B.C` in apxchangelog.py. */
  lemma {:induction false} VersionOfTagApx(a: string, b: string, c: string, suffix: string)
    requires IsDigits(a) && IsDigits(b) && IsDigits(c)
    requires suffix == "" || (suffix[0] == '-' && !IsSpace(suffix[|suffix| - 1]))
    ensures Version("v" + a + "." + b + "." + c + suffix, Apx) == Some("v" + a + "." + b + "." + c)
  {
    var x := "v" + a;
    DigitsFree(a);
    DigitsFree(b);
    DigitsFree(c);
    assert x + "." + b + "." + c + suffix == "v" + a + "." + b + "." + c + suffix;
    TagStripped(x, c, suffix);
    FieldsOf(x, b, c, suffix);
  }

  /** The same in changelog.py, which also drops the `v`: `A.B.C`. */
  lemma {:induction false} VersionOfTagDeploy(a: string, b: string, c: string, suffix: string)
    requires IsDigits(a) && IsDigits(b) && IsDigits(c)
    requires suffix == "" || (suffix[0] == '-' && !IsSpace(suffix[|suffix| - 1]))
    ensures Version("v" + a + "." + b + "." + c + suffix, Deploy) == Some(a + "." + b + "." + c)
  {
    var describe := "v" + a + "." + b + "." + c + suffix;
    DigitsFree(a);
    DigitsFree(b);
    DigitsFree(c);
    TagStripped("v" + a, c, suffix);
    assert "v" + a + "." + b + "." + c + suffix == describe;
    assert Strip(describe) == describe;
    var rv := Replace(suffix, "v", "");
    DropV(a, b, c, suffix);
    DropVSuffix(suffix);
    FieldsOf(a, b, c, rv);
  }

  lemma {:induction false} DropVSuffix(suffix: string)
    requires suffix == "" || suffix[0] == '-'
    ensures var rv := Replace(suffix, "v", ""); rv == "" || rv[0] == '-'
  {
    if suffix != "" {
      assert suffix == [suffix[0]] + suffix[1..];
      ReplaceCharAppend([suffix[0]], suffix[1..], 'v', "");
      assert Replace([suffix[0]], "v", "") == "-";
    }
  }

  lemma {:induction false} TagStripped(x: string, c: string, suffix: string)
    requires |x| > 0 && !IsSpace(x[0]) && |c| > 0 && !IsSpace(c[|c| - 1])
    requires suffix == "" || !IsSpace(suffix[|suffix| - 1])
    ensures forall b :: IsStripped(x + "." + b + "." + c + suffix)
  {
    forall b ensures IsStripped(x + "." + b + "." + c + suffix) {
      var s := x + "." + b + "." + c + suffix;
      assert s[0] == x[0];
      if suffix == "" {
        assert s[|s| - 1] == c[|c| - 1];
      } else {
        assert s[|s| - 1] == suffix[|suffix| - 1];
      }
    }
  }

  /** Deleting the `v` of the tag. */
  lemma {:induction false} DropV(a: string, b: string, c: string, suffix: string)
    requires 'v' !in a && 'v' !in b && 'v' !in c
    ensures Replace("v" + a + "." + b + "." + c + suffix, "v", "") ==
      a + "." + b + "." + c + Replace(suffix, "v", "")
  {
    var m := a + "." + b + "." + c;
    assert "v" + a + "." + b + "." + c + suffix == "v" + (m + suffix);
    ReplaceCharAppend("v", m + suffix, 'v', "");
    assert Replace("v", "v", "") == "";
    assert "" + Replace(m + suffix, "v", "") == Replace(m + suffix, "v", "");
    ReplaceCharAppend(m, suffix, 'v', "");
    NoCharReplace(m, 'v', "");
  }

  lemma DigitsFree(s: string)
    requires IsDigits(s)
    ensures '.' !in s && '-' !in s && 'v' !in s && !IsSpace(s[0]) && !IsSpace(s[|s| - 1])
  {
  }

  lemma {:induction false} NoCharReplace(s: string, c: char, rep: string)
    requires c !in s
    ensures Replace(s, [c], rep) == s
  {
    ContainsChar(s, c);
    ReplaceAbsent(s, [c], rep);
  }

  /** The field step of `Version` on a stripped `x.b.c` followed by a
      `-`-suffix. */
  lemma {:induction false} FieldsOf(x: string, b: string, c: string, suffix: string)
    requires |x| > 0 && '.' !in x && '-' !in x && !IsSpace(x[0])
    requires |c| > 0 && '.' !in b && '-' !in b && '.' !in c && '-' !in c && !IsSpace(c[|c| - 1])
    requires suffix == "" || suffix[0] == '-'
    ensures Strip(Join(Take(Split(Replace(x + "." + b + "." + c + suffix, "-", "."), '.'), 3), ".")) ==
      x + "." + b + "." + c
  {
    var core := x + "." + b + "." + c;
    var rs := Replace(suffix, "-", ".");
    DashesToDots(core, suffix);
    NoCharReplace(core, '-', ".");
    var tail := SplitFields(x, b, c, rs);
    var ps := [x, b, c] + tail;
    assert Take(ps, 3) == [x, b, c];
    Join3(x, b, c);
    assert IsStripped(core) by {
      assert core[0] == x[0] && core[|core| - 1] == c[|c| - 1];
    }
  }

  lemma Join3(x: string, b: string, c: string)
    ensures Join([x, b, c], ".") == x + "." + b + "." + c
  {
    assert [x, b, c][1..] == [b, c] && [b, c][1..] == [c];
    assert Join([c], ".") == c;
    assert Join([b, c], ".") == b + "." + c;
  }

  lemma {:induction false} DashesToDots(core: string, suffix: string)
    requires suffix == "" || suffix[0] == '-'
    ensures Replace(core + suffix, "-", ".") == Replace(core, "-", ".") + Replace(suffix, "-", ".")
    ensures var rs := Replace(suffix, "-", "."); rs == "" || rs[0] == '.'
  {
    ReplaceCharAppend(core, suffix, '-', ".");
    if suffix != "" {
      assert suffix == [suffix[0]] + suffix[1..];
      ReplaceCharAppend([suffix[0]], suffix[1..], '-', ".");
      assert Replace([suffix[0]], "-", ".") == ".";
    } else {
      assert Replace(suffix, "-", ".") == "";
    }
  }

  /** The first three fields of `x.b.c` followed by a `.`-suffix. */
  lemma {:induction false} SplitFields(x: string, b: string, c: string, rs: string) returns (tail: seq<string>)
    requires '.' !in x && '.' !in b && '.' !in c
    requires rs == "" || rs[0] == '.'
    ensures Split(x + "." + b + "." + c + rs, '.') == [x, b, c] + tail
  {
    SplitNone(x, '.');
    SplitNone(b, '.');
    var r := x + "." + b + "." + c + rs;
    assert r == x + ['.'] + (b + ['.'] + (c + rs));
    SplitAppend(x, b + ['.'] + (c + rs), '.');
    SplitAppend(b, c + rs, '.');
    if rs != "" {
      assert c + rs == c + ['.'] + rs[1..];
      SplitAppend(c, rs[1..], '.');
      SplitNone(c, '.');
      tail := Split(rs[1..], '.');
    } else {
      assert c + rs == c;
      SplitNone(c, '.');
      tail := [];
    }
  }

  /** A character in neither the pieces nor the separator is not in their join. */
  lemma {:induction false} JoinAvoids(parts: seq<string>, sep: string, d: char)
    requires d !in sep
    requires forall i :: 0 <= i < |parts| ==> d !in parts[i]
    ensures d !in Join(parts, sep)
    decreases |parts|
  {
    if |parts| > 1 {
      JoinAvoids(parts[1..], sep, d);
    }
  }

  /** A character absent from the text is absent from every piece of a split. */
  lemma {:induction false} SplitAvoids(s: string, c: char, d: char)
    requires d !in s
    ensures forall i :: 0 <= i < |Split(s, c)| ==> d !in Split(s, c)[i]
    decreases |s|
  {
    if |s| > 0 {
      SplitAvoids(s[1..], c, d);
    }
  }

  // ---------------------------------------------------------------------------
  // Branch

  /** One line of `git branch --contains` with `*` and spaces deleted. */
  function CleanBranch(line: string): (b: string)
    ensures '*' !in b && ' ' !in b
  {
    ReplaceCharChars(line, '*', "");
    ReplaceCharChars(Replace(line, "*", ""), ' ', "");
    Replace(Replace(line, "*", ""), " ", "")
  }

  /** A detached-head line, which the loop skips. */
  predicate Skipped(b: string) {
    StartsWith(b, "(") || StartsWith(b, "HEAD")
  }

  /** The index of the first line that is not skipped, or the number of lines. */
  function FirstKept(lines: seq<string>): (k: nat)
    ensures k <= |lines|
  {
    if lines == [] then 0
    else if !Skipped(CleanBranch(lines[0])) then 0
    else 1 + FirstKept(lines[1..])
  }

  /** The branch the scripts settle on: the first line that is not skipped,
      cleaned, or the default (`main` in apxchangelog.py, `master` in
      changelog.py) when every line is skipped. */
  function Branch(output: string, default: string): string {
    var lines := Split(output, '\n');
    var k := FirstKept(lines);
    if k < |lines| then CleanBranch(lines[k]) else default
  }

  /** The loop with `continue` and `break` over the lines of the output. */
  method SelectBranch(output: string, default: string) returns (branch: string)
    ensures branch == Branch(output, default)
    ensures branch == default || (' ' !in branch && '*' !in branch)
  {
    var lines := Split(output, '\n');
    ghost var k := FirstKept(lines);
    FirstKeptFacts(lines);
    branch := default;
    var i := 0;
    while i < |lines|
      invariant 0 <= i <= k
      invariant branch == default
    {
      var b := Replace(Replace(lines[i], "*", ""), " ", "");
      if StartsWith(b, "(") {
        i := i + 1;
        continue;
      }
      if StartsWith(b, "HEAD") {
        i := i + 1;
        continue;
      }
      branch := b;
      break;
    }
  }

  lemma {:induction false} FirstKeptFacts(lines: seq<string>)
    ensures var k := FirstKept(lines);
      (forall i :: 0 <= i < k ==> Skipped(CleanBranch(lines[i]))) &&
      (k < |lines| ==> !Skipped(CleanBranch(lines[k])))
    decreases |lines|
  {
    if lines != [] && Skipped(CleanBranch(lines[0])) {
      FirstKeptFacts(lines[1..]);
    }
  }

  /** When every line is skipped the default is kept. */
  lemma {:induction false} FirstKeptAll(lines: seq<string>)
    requires forall i :: 0 <= i < |lines| ==> Skipped(CleanBranch(lines[i]))
    ensures FirstKept(lines) == |lines|
    decreases |lines|
  {
    if lines != [] {
      assert Skipped(CleanBranch(lines[0]));
      FirstKeptAll(lines[1..]);
    }
  }

  /** The loop stops at or before any line that is not skipped. */
  lemma {:induction false} FirstKeptBefore(lines: seq<string>, j: nat)
    requires j < |lines| && !Skipped(CleanBranch(lines[j]))
    ensures FirstKept(lines) <= j
    decreases j
  {
    if j > 0 && Skipped(CleanBranch(lines[0])) {
      assert lines[1..][j - 1] == lines[j];
      FirstKeptBefore(lines[1..], j - 1);
    }
  }

  /** The branch is the default when every line is skipped. */
  lemma BranchDefault(output: string, default: string)
    requires forall i :: 0 <= i < |Split(output, '\n')| ==> Skipped(CleanBranch(Split(output, '\n')[i]))
    ensures Branch(output, default) == default
  {
    FirstKeptAll(Split(output, '\n'));
  }

  /** Otherwise it is the first line that is not skipped, cleaned: that line
      comes no later than any line that is not skipped, and every line before
      it is skipped. */
  lemma BranchFirst(output: string, default: string, j: nat)
    requires j < |Split(output, '\n')| && !Skipped(CleanBranch(Split(output, '\n')[j]))
    ensures var lines := Split(output, '\n');
      exists k :: 0 <= k <= j && Branch(output, default) == CleanBranch(lines[k]) &&
        !Skipped(CleanBranch(lines[k])) &&
        (forall i :: 0 <= i < k ==> Skipped(CleanBranch(lines[i])))
  {
    var lines := Split(output, '\n');
    FirstKeptFacts(lines);
    FirstKeptBefore(lines, j);
  }

  /** Empty output is one empty line, which is kept, so the branch is then
      empty rather than the default. */
  lemma BranchOfEmptyOutput(default: string)
    ensures Branch("", default) == ""
  {
    assert Split("", '\n') == [""];
    assert !Skipped(CleanBranch(""));
  }

  // ---------------------------------------------------------------------------
  // Repository name

  /** `'/'.join(url.replace(':', '/').split('.git')[0].split('/')[-2:])`. */
  function RepoName(url: string): string {
    Join(LastTwo(Split(BeforeFirst(Replace(url, ":", "/"), ".git"), '/')), "/")
  }

  /** Both the SSH form `host:owner/repo[.git]` and the HTTPS form
      `https://host/owner/repo[.git]` give `owner/repo`, for any host part and
      any `owner/repo` in which `.git` does not occur; dots are allowed. The
      text is cut at the first `.git` wherever it starts, so a URL ending in
      `owner/repo` followed by any `ext` starting with `.git` gives
      `owner/repo` too: `host:me/me.github.io.git` gives `me/me`. */
  lemma {:induction false} RepoNameOf(host: string, sep: char, owner: string, repo: string, ext: string)
    requires sep == ':' || sep == '/'
    requires ext == "" || (StartsWith(ext, ".git") && ':' !in ext)
    requires !Contains(Replace(host, ":", "/"), ".git")
    requires '/' !in owner && ':' !in owner
    requires '/' !in repo && ':' !in repo
    requires !Contains(owner + "/" + repo, ".git")
    ensures RepoName(host + [sep] + owner + "/" + repo + ext) == owner + "/" + repo
  {
    var h := Replace(host, ":", "/");
    var z := "/" + (owner + "/" + repo);
    UrlColons(host, sep, owner, repo, ext);
    assert z[1..] == owner + "/" + repo;
    assert !Contains(z, ".git") by {
      assert !StartsWith(z, ".git") by { assert z[0] == '/'; }
    }
    UrlBeforeGit(h, z, ext);
    UrlPieces(h, owner, repo);
  }

  /** A repository whose name holds `.git`, such as a GitHub Pages site, is
      cut there: `git@github.com:me/me.github.io.git` gives `me/me`. */
  lemma RepoNameCutInName(url: string, host: string, name: string, ext: string)
    requires host == "git@github.com" && name == "me" && ext == ".github.io.git"
    requires url == host + ":" + name + "/" + name + ext
    ensures RepoName(url) == name + "/" + name
  {
    assert ':' !in host;
    NoCharReplace(host, ':', "/");
    HostSplitNoGit(host, "git@github", ".com");
    NoDotNoGit(name + "/" + name);
    assert StartsWith(ext, ".git");
    RepoNameOf(host, ':', name, name, ext);
  }

  /** `.git` does not occur in `git@github.com`. */
  lemma HostSplitNoGit(host: string, a: string, b: string)
    requires a == "git@github" && b == ".com" && host == a + b
    ensures !Contains(host, ".git")
  {
    NoDotNoGit(a);
    NoDotNoGit(b[1..]);
    assert !StartsWith(b, ".git") by { assert b[1] != ".git"[1]; }
    ContainsUnfold(b, ".git");
    BeforeFirstSkip(a, b, ".git");
  }

  lemma {:induction false} UrlColons(host: string, sep: char, owner: string, repo: string, ext: string)
    requires sep == ':' || sep == '/'
    requires ':' !in ext
    requires ':' !in owner && ':' !in repo
    ensures Replace(host + [sep] + owner + "/" + repo + ext, ":", "/") ==
      Replace(host, ":", "/") + ("/" + (owner + "/" + repo) + ext)
  {
    var tail := owner + "/" + repo;
    assert host + [sep] + owner + "/" + repo + ext == host + ([sep] + (tail + ext));
    ReplaceCharAppend(host, [sep] + (tail + ext), ':', "/");
    ReplaceCharAppend([sep], tail + ext, ':', "/");
    assert Replace([sep], ":", "/") == "/";
    NoCharReplace(tail + ext, ':', "/");
    assert "/" + (tail + ext) == "/" + tail + ext;
  }

  lemma {:induction false} UrlBeforeGit(h: string, z: string, ext: string)
    requires ext == "" || StartsWith(ext, ".git")
    requires !Contains(h, ".git") && |z| > 0 && z[0] == '/' && !Contains(z, ".git")
    ensures BeforeFirst(h + (z + ext), ".git") == h + z
  {
    BeforeFirstSkip(h, z + ext, ".git");
    ZBeforeGit(z, ext);
  }

  lemma ZBeforeGit(z: string, ext: string)
    requires ext == "" || StartsWith(ext, ".git")
    requires !Contains(z, ".git")
    ensures BeforeFirst(z + ext, ".git") == z
  {
    if ext == "" {
      assert z + ext == z;
    } else {
      assert ext[0] == '.';
      BeforeFirstSkip(z, ext, ".git");
    }
  }

  lemma {:induction false} UrlPieces(h: string, owner: string, repo: string)
    requires '/' !in owner && '/' !in repo
    ensures Join(LastTwo(Split(h + ("/" + (owner + "/" + repo)), '/')), "/") == owner + "/" + repo
  {
    assert h + ("/" + (owner + "/" + repo)) == h + ['/'] + (owner + ['/'] + repo);
    SplitAppend(h, owner + ['/'] + repo, '/');
    SplitAppend(owner, repo, '/');
    SplitNone(owner, '/');
    SplitNone(repo, '/');
    var ps := Split(h, '/') + [owner, repo];
    assert LastTwo(ps) == [owner, repo];
    assert [owner, repo][1..] == [repo];
  }

  /** Text without a `.` holds no `.git`. */
  lemma {:induction false} NoDotNoGit(s: string)
    requires '.' !in s
    ensures !Contains(s, ".git")
    decreases |s|
  {
    if |s| > 0 {
      assert s[0] != '.';
      assert !StartsWith(s, ".git") by {
        if |s| >= 4 { assert s[..4][0] == s[0]; }
      }
      ContainsNotStart(s, ".git");
      NoDotNoGit(s[1..]);
    }
  }

  /** A separator match cannot begin inside `x` when `x` holds none and the
      next character cannot continue one. */
  lemma {:induction false} BeforeFirstSkip(x: string, z: string, sep: string)
    requires |sep| > 0 && !Contains(x, sep)
    requires |z| > 0 && z[0] !in sep[1..]
    ensures BeforeFirst(x + z, sep) == x + BeforeFirst(z, sep)
    decreases |x|
  {
    if |x| > 0 {
      var s := x + z;
      NoStartAcross(x, z, sep);
      ContainsNotStart(x, sep);
      assert s[1..] == x[1..] + z;
      BeforeFirstSkip(x[1..], z, sep);
    } else {
      assert x + z == z;
    }
  }

  /** Under the same conditions, no separator match begins at the start of `x`. */
  lemma NoStartAcross(x: string, z: string, sep: string)
    requires |sep| > 0 && !Contains(x, sep) && |x| > 0
    requires |z| > 0 && z[0] !in sep[1..]
    ensures !StartsWith(x + z, sep)
  {
    var s := x + z;
    assert !StartsWith(x, sep);
    if |sep| <= |x| {
      assert s[..|sep|] == x[..|sep|];
    } else if |sep| <= |s| {
      var c := sep[1..][|x| - 1];
      assert c in sep[1..];
      assert c == sep[|x|];
      assert s[..|sep|][|x|] == z[0] != c;
    }
  }
}
