/** One commit of the log, as both scripts' `Commit` class reads it: the
    message is split into a subject line and a comment, and the subject is
    classified with the regular expression `(\w+)(\(\w+\))?:\s*(.*)` matched
    at its start. */
module CommitModel {
  import opened Wrappers
  import opened Strings
  import IssueLinks

  /** What GitPython hands over for one commit. */
  datatype RawCommit = RawCommit(message: string, committedDate: int, hexsha: string)

  /** The three groups of a successful match: category, scope without its
      parentheses, and description. */
  datatype Classification = Classification(category: string, scope: Option<string>, description: string)

  /** A parsed commit; `kind` is `None` where the script stores
      `(None, None, None)`. */
  datatype Commit = Commit(date: int, hash: string, subject: string, comment: string,
                           kind: Option<Classification>)

  /** The two scripts: apxchangelog.py and changelog.py. */
  datatype Tool = Apx | Deploy

  /** The regular expression class `\w`, restricted to ASCII. */
  predicate IsWordChar(c: char) {
    ('a' <= c <= 'z') || ('A' <= c <= 'Z') || ('0' <= c <= '9') || c == '_'
  }

  predicate IsWord(s: string) {
    |s| > 0 && forall i :: 0 <= i < |s| ==> IsWordChar(s[i])
  }

  /** Length of the longest prefix of word characters. */
  function WordRun(s: string): (n: nat)
    ensures n <= |s|
  {
    if |s| > 0 && IsWordChar(s[0]) then 1 + WordRun(s[1..]) else 0
  }

  /** A subject that starts `category(scope):` (or `category:` without a
      scope) and continues with `rest`. */
  function Compose(category: string, scope: Option<string>, rest: string): string {
    if scope.Some? then category + ("(" + (scope.value + (")" + (":" + rest))))
    else category + (":" + rest)
  }

  /** `:\s*(.*)` after the colon: leading whitespace (newlines included) is
      skipped and the description runs to the end of the line. */
  function Description(rest: string): string {
    BeforeFirst(LStrip(rest), "\n")
  }

  /** The groups of `(\w+)(\(\w+\))?:` and the text after the colon. */
  datatype HeadMatch = HeadMatch(category: string, scope: Option<string>, rest: string)

  /** `re.match` of the subject pattern up to the colon. Both `\w+` groups are
      followed by a character outside `\w`, so the greedy match never
      backtracks and is decided by the maximal word runs. */
  function MatchHead(s: string): Option<HeadMatch> {
    var n := WordRun(s);
    if n == 0 then None else AfterCategory(s[..n], s[n..])
  }

  /** The match after the category group: `:` directly, or a scope group. */
  function AfterCategory(category: string, t: string): Option<HeadMatch> {
    if |t| > 0 && t[0] == ':' then Some(HeadMatch(category, None, t[1..]))
    else if |t| > 0 && t[0] == '(' then AfterParen(category, t[1..])
    else None
  }

  /** The match after `(`: a word, `)` and `:`. */
  function AfterParen(category: string, u: string): Option<HeadMatch> {
    var m := WordRun(u);
    if 0 < m && m + 1 < |u| && u[m] == ')' && u[m + 1] == ':' then
      Some(HeadMatch(category, Some(u[..m]), u[m + 2..]))
    else None
  }

  /** `Commit.categorize`: the three groups, or `None` without a match. */
  function Categorize(s: string): Option<Classification> {
    match MatchHead(s)
    case None => None
    case Some(h) => Some(Classification(h.category, h.scope, Description(h.rest)))
  }

  /** `Commit.__init__`. The message is stripped (and, in changelog.py, its
      links fixed) and split into lines; a blank message has no first line, on
      which the script raises, modelled as `None`. */
  function ParseCommit(raw: RawCommit, tool: Tool): Option<Commit> {
    var text := MessageText(raw.message, tool);
    var lines := SplitLines(text);
    if |lines| == 0 then None
    else
      var subject := Strip(lines[0]);
      Some(Commit(raw.committedDate, raw.hexsha, subject, Strip(Join(lines[1..], "\n")),
                  Categorize(subject)))
  }

  /** The text that is split into lines. */
  function MessageText(message: string, tool: Tool): string {
    var m := Strip(message);
    if tool == Deploy then IssueLinks.FixLinks(m) else m
  }

  // ---------------------------------------------------------------------------
  // Lemmas

  lemma {:induction false} WordRunFacts(s: string)
    ensures forall i :: 0 <= i < WordRun(s) ==> IsWordChar(s[i])
    ensures WordRun(s) < |s| ==> !IsWordChar(s[WordRun(s)])
    decreases |s|
  {
    if |s| > 0 && IsWordChar(s[0]) {
      WordRunFacts(s[1..]);
    }
  }

  /** A word has no whitespace at its ends and holds no bracket. */
  lemma WordChars(w: string)
    requires IsWord(w)
    ensures IsStripped(w) && '(' !in w
  {
    assert !IsSpace(w[0]) && !IsSpace(w[|w| - 1]);
  }

  /** The word run of `w + t` is `w` when `t` does not start with a word character. */
  lemma {:induction false} WordRunPrefix(w: string, t: string)
    requires forall i :: 0 <= i < |w| ==> IsWordChar(w[i])
    requires |t| == 0 || !IsWordChar(t[0])
    ensures WordRun(w + t) == |w|
    decreases |w|
  {
    if |w| > 0 {
      assert (w + t)[1..] == w[1..] + t;
      WordRunPrefix(w[1..], t);
    } else {
      assert w + t == t;
    }
  }

  lemma {:induction false} AfterParenShape(category: string, u: string, h: HeadMatch)
    requires AfterParen(category, u) == Some(h)
    ensures h.category == category && h.scope.Some? && IsWord(h.scope.value)
    ensures u == h.scope.value + (")" + (":" + h.rest))
  {
    WordRunFacts(u);
    var m := WordRun(u);
    assert u == u[..m] + ([u[m]] + ([u[m + 1]] + u[m + 2..]));
  }

  lemma {:induction false} AfterCategoryShape(category: string, t: string, h: HeadMatch)
    requires AfterCategory(category, t) == Some(h)
    ensures h.category == category && (h.scope.Some? ==> IsWord(h.scope.value))
    ensures category + t == Compose(category, h.scope, h.rest)
  {
    if t[0] == '(' {
      AfterParenShape(category, t[1..], h);
      assert t == "(" + t[1..];
    } else {
      assert t == ":" + t[1..];
    }
  }

  /** A matched subject is `category(scope):` made of word characters,
      followed by the rest of the subject. */
  lemma {:induction false} MatchHeadShape(s: string, h: HeadMatch)
    requires MatchHead(s) == Some(h)
    ensures IsWord(h.category) && (h.scope.Some? ==> IsWord(h.scope.value))
    ensures s == Compose(h.category, h.scope, h.rest)
  {
    var n := WordRun(s);
    WordRunFacts(s);
    AfterCategoryShape(s[..n], s[n..], h);
    assert s == s[..n] + s[n..];
  }

  /** Soundness of `categorize`: a classified subject is `category(scope):`
      made of word characters followed by some rest, and the description is
      that rest with leading whitespace removed, up to the end of the line. */
  lemma CategorizeSound(s: string, c: Classification)
    requires Categorize(s) == Some(c)
    ensures IsWord(c.category) && (c.scope.Some? ==> IsWord(c.scope.value))
    ensures exists rest :: s == Compose(c.category, c.scope, rest) && c.description == Description(rest)
  {
    var h := MatchHead(s).value;
    MatchHeadShape(s, h);
  }

  lemma {:induction false} AfterParenComplete(category: string, word: string, rest: string)
    requires IsWord(word)
    ensures AfterParen(category, word + (")" + (":" + rest))) == Some(HeadMatch(category, Some(word), rest))
  {
    var u := word + (")" + (":" + rest));
    WordRunPrefix(word, ")" + (":" + rest));
    assert u[..|word|] == word;
    assert u[|word| + 2..] == rest;
  }

  lemma {:induction false} AfterCategoryComplete(category: string, scope: Option<string>, rest: string)
    requires scope.Some? ==> IsWord(scope.value)
    ensures var t := Compose(category, scope, rest)[|category|..];
      AfterCategory(category, t) == Some(HeadMatch(category, scope, rest))
  {
    var t := Compose(category, scope, rest)[|category|..];
    if scope.Some? {
      var w := scope.value;
      assert t == "(" + (w + (")" + (":" + rest)));
      assert t[1..] == w + (")" + (":" + rest));
      AfterParenComplete(category, w, rest);
    } else {
      assert t == ":" + rest;
      assert t[1..] == rest;
    }
  }

  /** Completeness of `categorize`: every subject of the form
      `category(scope): rest` is classified with exactly those groups. */
  lemma {:induction false} CategorizeComplete(category: string, scope: Option<string>, rest: string)
    requires IsWord(category)
    requires scope.Some? ==> IsWord(scope.value)
    ensures Categorize(Compose(category, scope, rest)) ==
      Some(Classification(category, scope, Description(rest)))
  {
    var s := Compose(category, scope, rest);
    var t := s[|category|..];
    assert s == category + t;
    WordRunPrefix(category, t);
    assert s[..|category|] == category;
    AfterCategoryComplete(category, scope, rest);
  }

  /** `categorize` rejects a subject whose leading word is followed by anything
      but `(` or `:`, such as `feat!: x` or `feat : x`. */
  lemma CategorizeRejectsSeparator(category: string, c: char, rest: string)
    requires IsWord(category)
    requires !IsWordChar(c) && c != '(' && c != ':'
    ensures Categorize(category + ([c] + rest)) == None
  {
    WordRunPrefix(category, [c] + rest);
    assert (category + ([c] + rest))[|category|..] == [c] + rest;
  }

  /** `categorize` rejects a scope containing a character outside `\w`, such as
      the `-` of `feat(my-ui): x`. */
  lemma CategorizeRejectsScope(category: string, word: string, c: char, rest: string)
    requires IsWord(category) && IsWord(word)
    requires !IsWordChar(c) && c != ')'
    ensures Categorize(category + ("(" + (word + ([c] + rest)))) == None
  {
    var t := "(" + (word + ([c] + rest));
    WordRunPrefix(category, t);
    assert (category + t)[|category|..] == t;
    assert t[1..] == word + ([c] + rest);
    WordRunPrefix(word, [c] + rest);
    assert t[|word| + 1] == c;
  }

  /** A subject that does not start with a word character is not classified. */
  lemma CategorizeNeedsWord(s: string)
    requires |s| == 0 || !IsWordChar(s[0])
    ensures Categorize(s) == None
  {
  }

  /** Fixing links neither creates nor removes text entirely. */
  lemma FixLinksEmpty(s: string)
    ensures IssueLinks.FixLinks(s) == "" <==> s == ""
  {
  }

  /** What `Commit.__init__` stores: a blank message is rejected; otherwise the
      subject is the trimmed text before the first newline and the comment the
      trimmed text after it, and the classification is that of the subject. */
  lemma ParseCommitBlank(raw: RawCommit, tool: Tool)
    ensures ParseCommit(raw, tool).None? <==> Strip(raw.message) == ""
  {
    var m := Strip(raw.message);
    FixLinksEmpty(m);
    var text := MessageText(raw.message, tool);
    assert text == "" <==> m == "";
    if text != "" {
      assert Split(text, '\n') != [];
      assert |SplitLines(text)| > 0 by {
        SplitLastEmpty(text, '\n');
        assert |Split(text, '\n')| > 1 || Split(text, '\n')[0] != "";
      }
    }
  }

  lemma ParseCommitFields(raw: RawCommit, tool: Tool)
    ensures ParseCommit(raw, tool).None? <==> Strip(raw.message) == ""
    ensures ParseCommit(raw, tool).Some? ==>
      var c := ParseCommit(raw, tool).value;
      var text := MessageText(raw.message, tool);
      c.date == raw.committedDate && c.hash == raw.hexsha &&
      c.subject == Strip(BeforeFirst(text, "\n")) &&
      c.comment == Strip(AfterFirst(text, "\n")) &&
      c.kind == Categorize(c.subject)
  {
    ParseCommitBlank(raw, tool);
    var text := MessageText(raw.message, tool);
    if text != "" {
      SplitLinesFields(text);
    }
  }

  /** The subject is a single stripped line. */
  lemma SubjectIsOneLine(raw: RawCommit, tool: Tool)
    requires ParseCommit(raw, tool).Some?
    ensures '\n' !in ParseCommit(raw, tool).value.subject
    ensures IsStripped(ParseCommit(raw, tool).value.subject)
  {
    var text := MessageText(raw.message, tool);
    ParseCommitFields(raw, tool);
    var b := BeforeFirst(text, "\n");
    ContainsChar(b, '\n');
    StripFacts(b);
    assert multiset(b)['\n'] == 0;
  }
}
