/** The text post-processing both scripts apply to rendered markdown:
    dropping carriage returns, collapsing blank lines until no three
    newlines in a row remain, the placeholder for an empty changelog, and
    the heading shift `re.sub(r'^#', marker, text, flags=re.M)`. */
module Markdown {
  import opened Strings

  // ---------------------------------------------------------------------------
  // Blank-line collapsing

  /** `s` starts with three newlines. */
  predicate TripleNL(s: string) {
    |s| >= 3 && s[0] == '\n' && s[1] == '\n' && s[2] == '\n'
  }

  predicate LeadNL(s: string) {
    |s| > 0 && s[0] == '\n'
  }

  predicate LeadNL2(s: string) {
    |s| > 1 && s[0] == '\n' && s[1] == '\n'
  }

  /** Three newlines in a row occur somewhere in `s`. */
  predicate HasTriple(s: string)
    decreases |s|
  {
    TripleNL(s) || (|s| > 0 && HasTriple(s[1..]))
  }

  /** The intended result of the collapse: every newline that is followed by
      two more is dropped, so each run of three or more newlines becomes
      exactly two and every other character stays. */
  function Squeeze(s: string): string
    decreases |s|
  {
    if |s| == 0 then ""
    else if TripleNL(s) then Squeeze(s[1..])
    else [s[0]] + Squeeze(s[1..])
  }

  /** One pass of the loop body, `changelog.replace('\n\n\n', '\n\n')`. */
  function CollapseOnce(s: string): string {
    Replace(s, "\n\n\n", "\n\n")
  }

  /** `while '\n\n\n' in changelog: changelog = changelog.replace(...)`.
      The loop ends because every pass that finds a triple newline shortens
      the text, and it ends with the squeezed text. */
  method Collapse(s: string) returns (r: string)
    ensures r == Squeeze(s)
    ensures !Contains(r, "\n\n\n")
  {
    r := s;
    while Contains(r, "\n\n\n")
      invariant Squeeze(r) == Squeeze(s)
      decreases |r|
    {
      ReplaceShrinks(r, "\n\n\n", "\n\n");
      SqueezeCollapseOnce(r);
      r := CollapseOnce(r);
    }
    ContainsTriple(r);
    SqueezeFixed(r);
  }

  /** `text.replace('\r', '')`. */
  function RemoveCR(s: string): string {
    Replace(s, "\r", "")
  }

  /** A line that is not a heading: empty or not starting with `#`. */
  predicate Plain(line: string) {
    |line| == 0 || line[0] != '#'
  }

  /** `if len(changes) == 0: changes = placeholder`. */
  function Placeholder(s: string, placeholder: string): (r: string)
    ensures |s| > 0 ==> r == s
    ensures |s| == 0 ==> r == placeholder
    ensures |placeholder| > 0 ==> |r| > 0
  {
    if |s| == 0 then placeholder else s
  }

  // ---------------------------------------------------------------------------
  // Heading shift

  /** `re.sub(r'^#', marker, s, flags=re.M)`: a `#` at the start of the text or
      right after a newline becomes `marker`. */
  function Shift(s: string, marker: string): string {
    ShiftFrom(s, marker, true)
  }

  /** The substitution scanning `s`, where `atStart` says whether the
      position is at the beginning of a line. */
  function ShiftFrom(s: string, marker: string, atStart: bool): string
    decreases |s|
  {
    if |s| == 0 then ""
    else if atStart && s[0] == '#' then marker + ShiftFrom(s[1..], marker, false)
    else [s[0]] + ShiftFrom(s[1..], marker, s[0] == '\n')
  }

  /** The substitution on one line. */
  function ShiftLine(line: string, marker: string): string {
    if |line| > 0 && line[0] == '#' then marker + line[1..] else line
  }

  function ShiftLines(lines: seq<string>, marker: string): (r: seq<string>)
    ensures |r| == |lines|
  {
    if lines == [] then [] else [ShiftLine(lines[0], marker)] + ShiftLines(lines[1..], marker)
  }

  // ---------------------------------------------------------------------------
  // Lemmas: collapsing

  lemma TripleStart(s: string)
    ensures StartsWith(s, "\n\n\n") <==> TripleNL(s)
  {
    if |s| >= 3 && TripleNL(s) {
      assert s[..3] == "\n\n\n";
    }
  }

  /** `'\n\n\n' in s` is `HasTriple(s)`. */
  lemma {:induction false} ContainsTriple(s: string)
    ensures Contains(s, "\n\n\n") <==> HasTriple(s)
    decreases |s|
  {
    TripleStart(s);
    if |s| > 0 {
      ContainsTriple(s[1..]);
    }
  }

  /** Text without a triple newline is left alone by the squeeze. */
  lemma {:induction false} SqueezeFixed(s: string)
    requires !HasTriple(s)
    ensures Squeeze(s) == s
    decreases |s|
  {
    if |s| > 0 {
      SqueezeFixed(s[1..]);
    }
  }

  /** The squeeze keeps the number of leading newlines up to two. */
  lemma {:induction false} SqueezeLead(u: string)
    ensures LeadNL(Squeeze(u)) <==> LeadNL(u)
    ensures LeadNL2(Squeeze(u)) <==> LeadNL2(u)
    decreases |u|
  {
    if |u| > 0 {
      SqueezeLead(u[1..]);
    }
  }

  /** The squeezed text holds no triple newline. */
  lemma {:induction false} SqueezeNoTriple(s: string)
    ensures !HasTriple(Squeeze(s))
    decreases |s|
  {
    if |s| > 0 {
      SqueezeNoTriple(s[1..]);
      SqueezeLead(s[1..]);
      if !TripleNL(s) {
        var r := [s[0]] + Squeeze(s[1..]);
        assert r[1..] == Squeeze(s[1..]);
      }
    }
  }

  /** Squeezing twice is squeezing once. */
  lemma SqueezeIdempotent(s: string)
    ensures Squeeze(Squeeze(s)) == Squeeze(s)
  {
    SqueezeNoTriple(s);
    SqueezeFixed(Squeeze(s));
  }

  /** Only newlines are dropped: every other character keeps its count. */
  lemma {:induction false} SqueezeChars(s: string)
    ensures multiset(Squeeze(s)) <= multiset(s)
    ensures forall c :: c != '\n' ==> multiset(Squeeze(s))[c] == multiset(s)[c]
    decreases |s|
  {
    if |s| > 0 {
      SqueezeChars(s[1..]);
      assert s == [s[0]] + s[1..];
    }
  }

  /** The last character is never dropped; in particular non-empty text
      stays non-empty. */
  lemma {:induction false} SqueezeLast(s: string)
    requires |s| > 0
    ensures |Squeeze(s)| > 0 && Squeeze(s)[|Squeeze(s)| - 1] == s[|s| - 1]
    decreases |s|
  {
    if |s| > 1 {
      SqueezeLast(s[1..]);
    }
  }

  /** Stripped text stays stripped. */
  lemma SqueezeStripped(s: string)
    requires IsStripped(s)
    ensures IsStripped(Squeeze(s))
  {
    if |s| > 0 {
      SqueezeLast(s);
    }
  }

  lemma {:induction false} CollapseOnceLead(t: string)
    ensures LeadNL(CollapseOnce(t)) <==> LeadNL(t)
    ensures LeadNL2(CollapseOnce(t)) <==> LeadNL2(t)
    decreases |t|
  {
    TripleStart(t);
    if |t| >= 3 && !TripleNL(t) {
      CollapseOnceLead(t[1..]);
    }
  }

  lemma SqueezeNL(x: string)
    ensures Squeeze("\n" + x) == if LeadNL2(x) then Squeeze(x) else "\n" + Squeeze(x)
  {
    assert ("\n" + x)[1..] == x;
  }

  lemma SqueezeNL2(x: string, y: string)
    requires LeadNL(x) == LeadNL(y) && LeadNL2(x) == LeadNL2(y)
    requires Squeeze(x) == Squeeze(y)
    ensures Squeeze("\n\n" + x) == Squeeze("\n\n" + y)
  {
    assert ("\n\n" + x)[1..] == "\n" + x;
    assert ("\n\n" + y)[1..] == "\n" + y;
    SqueezeNL(x);
    SqueezeNL(y);
  }

  /** The loop body does not change what the whole loop computes. */
  lemma {:induction false} SqueezeCollapseOnce(s: string)
    ensures Squeeze(CollapseOnce(s)) == Squeeze(s)
    decreases |s|
  {
    TripleStart(s);
    if |s| < 3 {
    } else if TripleNL(s) {
      var t := s[3..];
      SqueezeCollapseOnce(t);
      CollapseOnceLead(t);
      assert CollapseOnce(s) == "\n\n" + CollapseOnce(t);
      assert s[1..] == "\n\n" + t;
      SqueezeNL2(CollapseOnce(t), t);
    } else {
      var t := s[1..];
      SqueezeCollapseOnce(t);
      CollapseOnceLead(t);
      var r := [s[0]] + CollapseOnce(t);
      assert CollapseOnce(s) == r;
      assert r[1..] == CollapseOnce(t);
    }
  }

  /** After removing carriage returns none is left, and stripped text stays
      stripped. */
  lemma RemoveCRFacts(s: string)
    ensures '\r' !in RemoveCR(s)
    ensures IsStripped(s) ==> IsStripped(RemoveCR(s))
  {
    ReplaceCharChars(s, '\r', "");
    if IsStripped(s) && |s| > 0 {
      var a, l := s[..|s| - 1], s[|s| - 1];
      assert s == a + [l];
      ReplaceCharAppend(a, [l], '\r', "");
      assert Replace([l], "\r", "") == [l] + Replace([], "\r", "");
    }
  }

  /** What `get_changelog` returns for a rendered template: stripped, free of
      carriage returns and of triple newlines, with the non-newline characters
      of the cleaned text. */
  lemma CleanedText(rendered: string)
    ensures var t := Squeeze(RemoveCR(Strip(rendered)));
      IsStripped(t) && '\r' !in t && !HasTriple(t)
  {
    var u := RemoveCR(Strip(rendered));
    RemoveCRFacts(Strip(rendered));
    SqueezeStripped(u);
    SqueezeChars(u);
    SqueezeNoTriple(u);
    assert multiset(u)['\r'] == 0;
  }

  // ---------------------------------------------------------------------------
  // Lemmas: heading shift

  /** Text without a newline is transformed as one line. */
  lemma {:induction false} ShiftOneLine(a: string, marker: string, atStart: bool)
    requires '\n' !in a
    ensures ShiftFrom(a, marker, atStart) == if atStart then ShiftLine(a, marker) else a
    decreases |a|
  {
    if |a| > 0 {
      ShiftOneLine(a[1..], marker, false);
      assert a == [a[0]] + a[1..];
    }
  }

  /** A newline ends the current line and starts a new one. */
  lemma {:induction false} ShiftAppendLine(a: string, b: string, marker: string, atStart: bool)
    ensures ShiftFrom(a + ("\n" + b), marker, atStart) ==
      ShiftFrom(a, marker, atStart) + ("\n" + ShiftFrom(b, marker, true))
    decreases |a|
  {
    var s := a + ("\n" + b);
    if |a| == 0 {
      assert s == "\n" + b;
      assert s[1..] == b;
    } else {
      assert s[0] == a[0] && s[1..] == a[1..] + ("\n" + b);
      if atStart && a[0] == '#' {
        ShiftAppendLine(a[1..], b, marker, false);
      } else {
        ShiftAppendLine(a[1..], b, marker, a[0] == '\n');
      }
    }
  }

  /** The substitution is the line-by-line rewrite: the text is split at its
      newlines, every line starting with `#` gets `marker` in place of that
      `#`, and the lines are joined again. */
  lemma {:induction false} ShiftByLines(s: string, marker: string)
    ensures Shift(s, marker) == Join(ShiftLines(Split(s, '\n'), marker), "\n")
    decreases |s|
  {
    ContainsChar(s, '\n');
    if '\n' in s {
      var a, b := BeforeFirst(s, "\n"), AfterFirst(s, "\n");
      assert s == a + "\n" + b;
      ContainsChar(a, '\n');
      assert |b| < |s|;
      ShiftByLines(b, marker);
      ShiftBreak(a, b, marker);
      JoinShiftBreak(a, b, marker);
    } else {
      SplitNone(s, '\n');
      ShiftOneLine(s, marker, true);
    }
  }

  /** The substitution on a first line and the text after its break. */
  lemma ShiftBreak(a: string, b: string, marker: string)
    requires '\n' !in a
    ensures Shift(a + "\n" + b, marker) == ShiftLine(a, marker) + "\n" + Shift(b, marker)
  {
    ShiftAppendLine(a, b, marker, true);
    assert a + "\n" + b == a + ("\n" + b);
    ShiftOneLine(a, marker, true);
  }

  /** The line-by-line rewrite of a first line and the text after its break. */
  lemma JoinShiftBreak(a: string, b: string, marker: string)
    requires '\n' !in a
    ensures Join(ShiftLines(Split(a + "\n" + b, '\n'), marker), "\n") ==
      ShiftLine(a, marker) + "\n" + Join(ShiftLines(Split(b, '\n'), marker), "\n")
  {
    assert a + "\n" + b == a + ['\n'] + b;
    SplitAppend(a, b, '\n');
    SplitNone(a, '\n');
    var rest := ShiftLines(Split(b, '\n'), marker);
    var all := [ShiftLine(a, marker)] + rest;
    assert Split(a + "\n" + b, '\n') == [a] + Split(b, '\n');
    assert ShiftLines(Split(a + "\n" + b, '\n'), marker) == all;
    assert |rest| >= 1 && all[1..] == rest;
  }

  /** With a marker made of `#` characters, a heading line gains the extra
      `#`s and keeps the rest of the line. */
  lemma ShiftLineHeading(line: string, extra: string)
    requires |line| > 0 && line[0] == '#'
    requires forall i :: 0 <= i < |extra| ==> extra[i] == '#'
    ensures ShiftLine(line, "#" + extra) == extra + line
  {
    assert "#" + extra == extra + "#";
    assert line == "#" + line[1..];
  }

  /** The shift keeps every newline, so the line count is unchanged. */
  lemma {:induction false} ShiftKeepsNewlines(s: string, marker: string, atStart: bool)
    requires '\n' !in marker
    ensures multiset(ShiftFrom(s, marker, atStart))['\n'] == multiset(s)['\n']
    decreases |s|
  {
    if |s| > 0 {
      ShiftKeepsNewlines(s[1..], marker, s[0] == '\n');
      ShiftKeepsNewlines(s[1..], marker, false);
      assert s == [s[0]] + s[1..];
      assert multiset(marker)['\n'] == 0;
    }
  }

  lemma ShiftLineCount(s: string, marker: string)
    requires '\n' !in marker
    ensures |Split(Shift(s, marker), '\n')| == |Split(s, '\n')|
  {
    ShiftKeepsNewlines(s, marker, true);
    SplitCount(s, '\n');
    SplitCount(Shift(s, marker), '\n');
  }

  /** The shift works line by line: text joined at a newline is shifted
      piece by piece. */
  lemma ShiftJoin(a: string, b: string, marker: string)
    ensures Shift(a + "\n" + b, marker) == Shift(a, marker) + "\n" + Shift(b, marker)
  {
    assert a + "\n" + b == a + ("\n" + b);
    ShiftAppendLine(a, b, marker, true);
  }

  /** The same across a blank line. */
  lemma ShiftJoin2(a: string, b: string, marker: string)
    ensures Shift(a + "\n\n" + b, marker) == Shift(a, marker) + "\n\n" + Shift(b, marker)
  {
    assert a + "\n\n" + b == a + "\n" + ("" + "\n" + b);
    ShiftJoin(a, "" + "\n" + b, marker);
    ShiftJoin("", b, marker);
    assert Shift("", marker) == "";
  }

  lemma {:induction false} ShiftLinesNoNewline(lines: seq<string>, marker: string)
    requires '\n' !in marker
    requires forall i :: 0 <= i < |lines| ==> '\n' !in lines[i]
    ensures forall i :: 0 <= i < |lines| ==> '\n' !in ShiftLines(lines, marker)[i]
    decreases |lines|
  {
    if lines != [] {
      ShiftLinesNoNewline(lines[1..], marker);
    }
  }

  lemma {:induction false} ShiftLinesAt(lines: seq<string>, marker: string)
    ensures forall i :: 0 <= i < |lines| ==> ShiftLines(lines, marker)[i] == ShiftLine(lines[i], marker)
    decreases |lines|
  {
    if lines != [] {
      ShiftLinesAt(lines[1..], marker);
    }
  }

  /** The lines of shifted text are the shifted lines. */
  lemma SplitShift(s: string, marker: string)
    requires '\n' !in marker
    ensures Split(Shift(s, marker), '\n') == ShiftLines(Split(s, '\n'), marker)
  {
    ShiftByLines(s, marker);
    ShiftLinesNoNewline(Split(s, '\n'), marker);
    SplitJoin(ShiftLines(Split(s, '\n'), marker), '\n');
  }

  /** Shifting twice by `##` shifts by `###`: a `#` at the start of a line
      becomes `##`, whose first `#` becomes `##` again. */
  lemma ShiftTwice(s: string)
    ensures Shift(Shift(s, "##"), "##") == Shift(s, "###")
  {
    var ps := Split(s, '\n');
    SplitShift(s, "##");
    ShiftByLines(Shift(s, "##"), "##");
    ShiftByLines(s, "###");
    ShiftLinesTwice(ps);
  }

  /** For one line, shifting by `##` twice is shifting by `###`. */
  lemma ShiftLineTwice(l: string)
    ensures ShiftLine(ShiftLine(l, "##"), "##") == ShiftLine(l, "###")
  {
    if |l| > 0 && l[0] == '#' {
      var once := "##" + l[1..];
      assert ShiftLine(l, "##") == once;
      assert once[1..] == "#" + l[1..];
      assert "##" + ("#" + l[1..]) == "###" + l[1..];
    }
  }

  /** Line by line, shifting by `##` twice is shifting by `###`. */
  lemma {:induction false} ShiftLinesTwice(ls: seq<string>)
    ensures ShiftLines(ShiftLines(ls, "##"), "##") == ShiftLines(ls, "###")
    decreases |ls|
  {
    if ls != [] {
      ShiftLinesTwice(ls[1..]);
      var l := ls[0];
      ShiftLineTwice(l);
      var once := ShiftLines(ls, "##");
      assert once == [ShiftLine(l, "##")] + ShiftLines(ls[1..], "##");
      assert once[1..] == ShiftLines(ls[1..], "##");
      assert ShiftLines(once, "##") == [ShiftLine(once[0], "##")] + ShiftLines(once[1..], "##");
    }
  }

  /** Text none of whose lines is a heading is left alone. */
  lemma ShiftPlain(s: string, marker: string)
    requires forall i :: 0 <= i < |Split(s, '\n')| ==> Plain(Split(s, '\n')[i])
    ensures Shift(s, marker) == s
  {
    var ps := Split(s, '\n');
    ShiftByLines(s, marker);
    ShiftLinesAt(ps, marker);
    assert ShiftLines(ps, marker) == ps;
    JoinSplit(s, '\n');
  }

  /** A single heading line gains the marker in place of its `#`. */
  lemma ShiftHeadingLine(line: string, marker: string)
    requires '\n' !in line && |line| > 0 && line[0] == '#'
    ensures Shift(line, marker) == marker + line[1..]
  {
    ShiftOneLine(line, marker, true);
  }
}
