/** Python string primitives used by both changelog scripts, over `seq<char>`.
    Whitespace is the ASCII set recognised by `str.strip()` and by the regular
    expression class `\s`; line boundaries are `'\n'` only. */
module Strings {

  /** The ASCII characters `str.isspace()` accepts: space, tab, newline,
      carriage return, vertical tab, form feed, and the four separators
      U+001C to U+001F. */
  predicate IsSpace(c: char) {
    c == ' ' || c == '\t' || c == '\n' || c == '\r' || c == '\U{000B}' || c == '\U{000C}'
    || ('\U{001C}' <= c <= '\U{001F}')
  }

  /** True when `s` has no whitespace at either end, i.e. `s.strip() == s`. */
  predicate IsStripped(s: string) {
    |s| == 0 || (!IsSpace(s[0]) && !IsSpace(s[|s| - 1]))
  }

  /** Python `s.lstrip()`: drops leading whitespace and nothing else. */
  function LStrip(s: string): (r: string)
    ensures |r| <= |s|
    ensures |r| > 0 ==> !IsSpace(r[0])
  {
    if |s| > 0 && IsSpace(s[0]) then LStrip(s[1..]) else s
  }

  /** `lstrip()` keeps a suffix. */
  lemma {:induction false} LStripSuffix(s: string)
    ensures LStrip(s) == s[|s| - |LStrip(s)|..]
    decreases |s|
  {
    if |s| > 0 && IsSpace(s[0]) {
      LStripSuffix(s[1..]);
    }
  }

  /** `lstrip()` drops only whitespace. */
  lemma {:induction false} LStripSpaces(s: string)
    ensures forall i :: 0 <= i < |s| - |LStrip(s)| ==> IsSpace(s[i])
    decreases |s|
  {
    if |s| > 0 && IsSpace(s[0]) {
      LStripSpaces(s[1..]);
    }
  }

  /** Python `s.rstrip()`: drops trailing whitespace and nothing else. */
  function RStrip(s: string): (r: string)
    ensures |r| <= |s|
    ensures |r| > 0 ==> !IsSpace(r[|r| - 1])
  {
    if |s| > 0 && IsSpace(s[|s| - 1]) then RStrip(s[..|s| - 1]) else s
  }

  /** `rstrip()` keeps a prefix. */
  lemma {:induction false} RStripPrefix(s: string)
    ensures RStrip(s) == s[..|RStrip(s)|]
    decreases |s|
  {
    if |s| > 0 && IsSpace(s[|s| - 1]) {
      RStripPrefix(s[..|s| - 1]);
    }
  }

  /** `rstrip()` drops only whitespace. */
  lemma {:induction false} RStripSpaces(s: string)
    ensures forall i :: |RStrip(s)| <= i < |s| ==> IsSpace(s[i])
    decreases |s|
  {
    if |s| > 0 && IsSpace(s[|s| - 1]) {
      RStripSpaces(s[..|s| - 1]);
    }
  }

  /** Python `s.strip()`. The result is a stripped infix of `s`; a stripped
      string is its own result. */
  function Strip(s: string): (r: string)
    ensures IsStripped(r)
    ensures IsStripped(s) ==> r == s
  {
    var l := LStrip(s);
    LStripSuffix(s);
    RStripPrefix(l);
    assert IsStripped(s) && |s| > 0 ==> |l| == |s|;
    RStrip(l)
  }

  /** What `strip()` keeps: some of the characters of `s`, and nothing
      exactly when `s` is all whitespace. */
  lemma StripFacts(s: string)
    ensures multiset(Strip(s)) <= multiset(s)
    ensures (forall i :: 0 <= i < |s| ==> IsSpace(s[i])) <==> Strip(s) == ""
  {
    var l := LStrip(s);
    var r := RStrip(l);
    StripMultiset(s, l, r);
    StripAllSpace(s, l, r);
  }

  lemma StripMultiset(s: string, l: string, r: string)
    requires l == LStrip(s) && r == RStrip(l)
    ensures multiset(r) <= multiset(s)
  {
    LStripSuffix(s);
    RStripPrefix(l);
    assert s == s[..|s| - |l|] + l;
    assert l == r + l[|r|..];
  }

  lemma StripAllSpace(s: string, l: string, r: string)
    requires l == LStrip(s) && r == RStrip(l)
    ensures (forall i :: 0 <= i < |s| ==> IsSpace(s[i])) <==> r == ""
  {
    LStripSpaces(s);
    RStripSpaces(l);
    if forall i :: 0 <= i < |s| ==> IsSpace(s[i]) {
      AllSpaceLStrip(s);
    }
  }

  lemma {:induction false} AllSpaceLStrip(s: string)
    requires forall i :: 0 <= i < |s| ==> IsSpace(s[i])
    ensures LStrip(s) == ""
    decreases |s|
  {
    if |s| > 0 {
      AllSpaceLStrip(s[1..]);
    }
  }

  /** Python `s.startswith(p)`. */
  predicate StartsWith(s: string, p: string) {
    |p| <= |s| && s[..|p|] == p
  }

  /** Python `pat in s` for a non-empty pattern. */
  predicate Contains(s: string, pat: string)
    decreases |s|
  {
    StartsWith(s, pat) || (|s| > 0 && Contains(s[1..], pat))
  }

  /** Python `s.replace(pat, rep)`: leftmost, non-overlapping replacement. */
  function Replace(s: string, pat: string, rep: string): string
    requires |pat| > 0
    decreases |s|
  {
    if |s| < |pat| then s
    else if s[..|pat|] == pat then rep + Replace(s[|pat|..], pat, rep)
    else [s[0]] + Replace(s[1..], pat, rep)
  }

  /** Python `s.split(c)` for a one-character separator. */
  function Split(s: string, c: char): (r: seq<string>)
    ensures |r| >= 1
    ensures forall i :: 0 <= i < |r| ==> c !in r[i]
  {
    if |s| == 0 then [""]
    else
      var rest := Split(s[1..], c);
      if s[0] == c then [""] + rest else [[s[0]] + rest[0]] + rest[1..]
  }

  /** Python `sep.join(parts)`. */
  function Join(parts: seq<string>, sep: string): string {
    if |parts| == 0 then ""
    else if |parts| == 1 then parts[0]
    else parts[0] + sep + Join(parts[1..], sep)
  }

  /** Python `s.split(sep)[0]`: the text before the first occurrence of `sep`,
      or all of `s` when `sep` does not occur. */
  function BeforeFirst(s: string, sep: string): (r: string)
    requires |sep| > 0
    ensures StartsWith(s, r)
    ensures Contains(s, sep) <==> StartsWith(s[|r|..], sep)
    ensures !Contains(r, sep)
    ensures !Contains(s, sep) ==> r == s
    decreases |s|
  {
    if StartsWith(s, sep) then ""
    else if |s| == 0 then ""
    else
      var t := BeforeFirst(s[1..], sep);
      ContainsNotStart(s, sep);
      assert !StartsWith([s[0]] + t, sep);
      ContainsUnfold([s[0]] + t, sep);
      assert ([s[0]] + t)[1..] == t;
      [s[0]] + t
  }

  /** Python `s[i:]` after the first occurrence of `sep`, or `''` when it does
      not occur. */
  function AfterFirst(s: string, sep: string): (r: string)
    requires |sep| > 0
    ensures Contains(s, sep) ==> s == BeforeFirst(s, sep) + sep + r
    ensures !Contains(s, sep) ==> r == ""
  {
    var b := BeforeFirst(s, sep);
    if Contains(s, sep) then
      SplitAt(s, b, sep);
      s[|b| + |sep|..]
    else ""
  }

  /** A text that starts with `b` followed by `sep` is `b`, `sep` and the rest. */
  lemma SplitAt(s: string, b: string, sep: string)
    requires StartsWith(s, b) && StartsWith(s[|b|..], sep)
    ensures |b| + |sep| <= |s| && s == b + sep + s[|b| + |sep|..]
  {
    var t := s[|b|..];
    assert s == s[..|b|] + t;
    assert t == t[..|sep|] + t[|sep|..];
    assert t[|sep|..] == s[|b| + |sep|..];
  }

  /** Python `s.splitlines()`, with `'\n'` as the only line boundary. */
  function SplitLines(s: string): seq<string> {
    if s == "" then []
    else
      var p := Split(s, '\n');
      if p[|p| - 1] == "" then p[..|p| - 1] else p
  }

  /** Python's iteration over an open text file: each line keeps its
      terminating `'\n'`, and a trailing `'\n'` does not start an empty line. */
  function Lines(s: string): seq<string> {
    Terminate(Split(s, '\n'))
  }

  /** Re-attaches the terminator to every piece but the last, which is kept only
      when it is non-empty. */
  function Terminate(parts: seq<string>): seq<string>
    requires |parts| > 0
  {
    var last := parts[|parts| - 1];
    AddNewlines(parts[..|parts| - 1]) + (if last == "" then [] else [last])
  }

  function AddNewlines(parts: seq<string>): (r: seq<string>)
    ensures |r| == |parts|
    ensures forall i :: 0 <= i < |parts| ==> r[i] == parts[i] + "\n"
  {
    if parts == [] then [] else [parts[0] + "\n"] + AddNewlines(parts[1..])
  }

  /** `''.join(lines)`: the file text a sequence of lines makes up. */
  function Concat(lines: seq<string>): string {
    if lines == [] then "" else lines[0] + Concat(lines[1..])
  }

  /** The shape of a line sequence read from a file: every line is non-empty,
      holds no `'\n'` before its end, and every line but the last ends with one. */
  predicate WellFormed(lines: seq<string>) {
    forall i :: 0 <= i < |lines| ==>
      |lines[i]| > 0 && '\n' !in lines[i][..|lines[i]| - 1] &&
      (i < |lines| - 1 ==> lines[i][|lines[i]| - 1] == '\n')
  }

  // ---------------------------------------------------------------------------
  // Lemmas

  lemma ContainsUnfold(s: string, pat: string)
    ensures Contains(s, pat) == (StartsWith(s, pat) || (|s| > 0 && Contains(s[1..], pat)))
  {
  }

  lemma ContainsNotStart(s: string, pat: string)
    requires |s| > 0 && !StartsWith(s, pat)
    ensures Contains(s, pat) == Contains(s[1..], pat)
  {
  }

  /** A string that contains a pattern is at least as long as it. */
  lemma {:induction false} ContainsLength(s: string, pat: string)
    requires Contains(s, pat)
    ensures |pat| <= |s|
    decreases |s|
  {
    if !StartsWith(s, pat) {
      ContainsLength(s[1..], pat);
    }
  }

  /** A pattern that does not occur leaves `Replace` without effect. */
  lemma {:induction false} ReplaceAbsent(s: string, pat: string, rep: string)
    requires |pat| > 0 && !Contains(s, pat)
    ensures Replace(s, pat, rep) == s
    decreases |s|
  {
    if |s| >= |pat| {
      assert !StartsWith(s, pat);
      ReplaceAbsent(s[1..], pat, rep);
    }
  }

  /** Replacing by something no longer never lengthens the text, and strictly
      shortens it when the pattern occurs. */
  lemma {:induction false} ReplaceShrinks(s: string, pat: string, rep: string)
    requires |pat| > 0 && |rep| <= |pat|
    ensures |Replace(s, pat, rep)| <= |s|
    ensures |rep| < |pat| && Contains(s, pat) ==> |Replace(s, pat, rep)| < |s|
    decreases |s|
  {
    if |s| < |pat| {
      if Contains(s, pat) { ContainsLength(s, pat); }
    } else if s[..|pat|] == pat {
      ReplaceShrinks(s[|pat|..], pat, rep);
    } else {
      ReplaceShrinks(s[1..], pat, rep);
    }
  }

  /** Replacing one character distributes over concatenation. */
  lemma {:induction false} ReplaceCharAppend(a: string, b: string, c: char, rep: string)
    ensures Replace(a + b, [c], rep) == Replace(a, [c], rep) + Replace(b, [c], rep)
    decreases |a|
  {
    if |a| > 0 {
      assert (a + b)[1..] == a[1..] + b;
      ReplaceCharAppend(a[1..], b, c, rep);
    } else {
      assert a + b == b;
    }
  }

  /** Replacing one character removes it, and brings in no character that was in
      neither the text nor the replacement. */
  lemma {:induction false} ReplaceCharChars(s: string, c: char, rep: string)
    ensures c !in rep ==> c !in Replace(s, [c], rep)
    ensures forall d :: d in Replace(s, [c], rep) ==> d in s || d in rep
    decreases |s|
  {
    if |s| > 0 {
      ReplaceCharChars(s[1..], c, rep);
    }
  }

  /** Splitting text that holds a separator splits it into the pieces on each side. */
  lemma {:induction false} SplitAppend(a: string, b: string, c: char)
    ensures Split(a + [c] + b, c) == Split(a, c) + Split(b, c)
    decreases |a|
  {
    if |a| == 0 {
      assert a + [c] + b == [c] + b;
      assert ([c] + b)[1..] == b;
    } else {
      assert (a + [c] + b)[1..] == a[1..] + [c] + b;
      SplitAppend(a[1..], b, c);
    }
  }

  /** Text without the separator is a single piece. */
  lemma {:induction false} SplitNone(s: string, c: char)
    requires c !in s
    ensures Split(s, c) == [s]
    decreases |s|
  {
    if |s| > 0 {
      assert s[0] != c && c !in s[1..];
      SplitNone(s[1..], c);
      assert [s[0]] + s[1..] == s;
    }
  }

  /** Joining the pieces of a split gives the text back. */
  lemma {:induction false} JoinSplit(s: string, c: char)
    ensures Join(Split(s, c), [c]) == s
    decreases |s|
  {
    if |s| > 0 {
      var rest := Split(s[1..], c);
      JoinSplit(s[1..], c);
      if s[0] == c {
        assert Split(s, c) == [""] + rest;
        assert ([""] + rest)[1..] == rest;
      } else {
        var r := Split(s, c);
        assert r == [[s[0]] + rest[0]] + rest[1..];
        if |rest| == 1 {
          assert r == [[s[0]] + rest[0]];
        } else {
          assert r[1..] == rest[1..];
          assert Join(rest, [c]) == rest[0] + [c] + Join(rest[1..], [c]);
        }
      }
    }
  }

  /** Splitting a join of separator-free pieces gives the pieces back. */
  lemma {:induction false} SplitJoin(parts: seq<string>, c: char)
    requires |parts| > 0
    requires forall i :: 0 <= i < |parts| ==> c !in parts[i]
    ensures Split(Join(parts, [c]), c) == parts
    decreases |parts|
  {
    if |parts| == 1 {
      SplitNone(parts[0], c);
    } else {
      SplitJoin(parts[1..], c);
      SplitNone(parts[0], c);
      SplitAppend(parts[0], Join(parts[1..], [c]), c);
      assert [parts[0]] + parts[1..] == parts;
    }
  }

  lemma {:induction false} ConcatAppend(a: seq<string>, b: seq<string>)
    ensures Concat(a + b) == Concat(a) + Concat(b)
    decreases |a|
  {
    if a == [] {
      assert a + b == b;
    } else {
      assert (a + b)[1..] == a[1..] + b;
      ConcatAppend(a[1..], b);
    }
  }

  lemma {:induction false} AddNewlinesAppend(a: seq<string>, b: seq<string>)
    ensures AddNewlines(a + b) == AddNewlines(a) + AddNewlines(b)
  {
  }

  lemma {:induction false} ConcatAddNewlines(parts: seq<string>, last: string)
    ensures Concat(AddNewlines(parts)) + last == Join(parts + [last], "\n")
    decreases |parts|
  {
    if parts != [] {
      ConcatAddNewlines(parts[1..], last);
      assert (parts + [last])[1..] == parts[1..] + [last];
    }
  }

  lemma TerminateAppend(xs: seq<string>, ys: seq<string>)
    requires |ys| > 0
    ensures Terminate(xs + ys) == AddNewlines(xs) + Terminate(ys)
  {
    assert (xs + ys)[..|xs + ys| - 1] == xs + ys[..|ys| - 1];
    AddNewlinesAppend(xs, ys[..|ys| - 1]);
  }

  /** Reading the lines of a text and concatenating them gives the text back. */
  lemma ConcatLines(s: string)
    ensures Concat(Lines(s)) == s
  {
    var p := Split(s, '\n');
    var init, last := p[..|p| - 1], p[|p| - 1];
    assert p == init + [last];
    ConcatAddNewlines(init, last);
    JoinSplit(s, '\n');
    if last != "" {
      ConcatAppend(AddNewlines(init), [last]);
    } else {
      assert Lines(s) == AddNewlines(init) + [];
      assert AddNewlines(init) + [] == AddNewlines(init);
    }
  }

  /** The lines of a text split after a line boundary are the lines of each part. */
  lemma LinesAppend(a: string, b: string)
    requires |a| > 0 && a[|a| - 1] == '\n'
    ensures Lines(a + b) == Lines(a) + Lines(b)
  {
    var a' := a[..|a| - 1];
    assert a == a' + "\n" + "";
    assert a + b == a' + "\n" + b;
    LinesAfterBreak(a', b);
    LinesAfterBreak(a', "");
    assert Lines("") == [];
  }

  /** The lines of a text with a break: the first part's pieces, terminated,
      then the lines of the rest. */
  lemma LinesAfterBreak(x: string, b: string)
    ensures Lines(x + "\n" + b) == AddNewlines(Split(x, '\n')) + Lines(b)
  {
    assert x + "\n" + b == x + ['\n'] + b;
    SplitAppend(x, b, '\n');
    TerminateAppend(Split(x, '\n'), Split(b, '\n'));
  }

  /** The lines read from any text have the shape of a file's lines. */
  lemma LinesWellFormed(s: string)
    ensures WellFormed(Lines(s))
  {
    var p := Split(s, '\n');
    var ls := Lines(s);
    forall i | 0 <= i < |ls|
      ensures |ls[i]| > 0 && '\n' !in ls[i][..|ls[i]| - 1]
      ensures i < |ls| - 1 ==> ls[i][|ls[i]| - 1] == '\n'
    {
      if i < |p| - 1 {
        assert ls[i] == p[i] + "\n";
        assert ls[i][..|ls[i]| - 1] == p[i];
      } else {
        assert ls[i] == p[|p| - 1];
        assert '\n' !in ls[i];
      }
    }
  }

  /** Concatenating a file's lines and reading them back gives the same lines. */
  lemma {:induction false} LinesConcat(ls: seq<string>)
    requires WellFormed(ls)
    ensures Lines(Concat(ls)) == ls
    decreases |ls|
  {
    if ls == [] {
    } else {
      var l := ls[0];
      var l' := l[..|l| - 1];
      assert WellFormed(ls[1..]) by {
        forall i | 0 <= i < |ls[1..]|
          ensures |ls[1..][i]| > 0 && '\n' !in ls[1..][i][..|ls[1..][i]| - 1]
          ensures i < |ls[1..]| - 1 ==> ls[1..][i][|ls[1..][i]| - 1] == '\n'
        {
          assert ls[1..][i] == ls[i + 1];
        }
      }
      if l[|l| - 1] == '\n' {
        assert l == l' + "\n";
        assert Lines(l) == [l] by {
          assert l == l' + ['\n'] + "";
          SplitAppend(l', "", '\n');
          SplitNone(l', '\n');
        }
        LinesAppend(l, Concat(ls[1..]));
        LinesConcat(ls[1..]);
        assert [l] + ls[1..] == ls;
      } else {
        assert |ls| == 1;
        assert '\n' !in l by {
          assert l == l' + [l[|l| - 1]];
        }
        SplitNone(l, '\n');
        assert Concat(ls) == l;
      }
    }
  }

  lemma {:induction false} ContainsChar(s: string, c: char)
    ensures Contains(s, [c]) <==> c in s
    decreases |s|
  {
    if |s| > 0 {
      ContainsChar(s[1..], c);
      assert s == [s[0]] + s[1..];
    }
  }

  /** The number of pieces `s.split(c)` has is one more than the number of `c`s. */
  lemma SplitCount(s: string, c: char)
    ensures |Split(s, c)| == multiset(s)[c] + 1
  {
    JoinSplit(s, c);
    JoinCount(Split(s, c), c);
  }

  /** The last piece of a split is empty exactly when the text is empty or ends
      with the separator. */
  lemma {:induction false} SplitLastEmpty(s: string, c: char)
    ensures var p := Split(s, c); p[|p| - 1] == "" <==> (s == "" || s[|s| - 1] == c)
    decreases |s|
  {
    if |s| > 0 {
      var rest := Split(s[1..], c);
      SplitLastEmpty(s[1..], c);
      if s[0] != c && |rest| == 1 {
        SplitCount(s[1..], c);
        assert c !in s[1..];
        assert s[|s| - 1] != c by {
          if |s| > 1 { assert s[|s| - 1] == s[1..][|s| - 2]; }
        }
      }
      if |s| > 1 {
        assert s[|s| - 1] == s[1..][|s| - 2];
      }
    }
  }

  /** Trailing whitespace does not change what `strip()` gives. */
  lemma StripTrailingSpace(s: string, c: char)
    requires IsSpace(c)
    ensures Strip(s + [c]) == Strip(s)
  {
    var t := s + [c];
    assert t[..|t| - 1] == s;
    var l, l' := LStrip(s), LStrip(t);
    if l == "" {
      LStripSpaces(s);
      assert forall i :: 0 <= i < |s| ==> IsSpace(s[i]);
      assert forall i :: 0 <= i < |t| ==> IsSpace(t[i]);
      AllSpaceLStrip(t);
    } else {
      LStripSuffix(s);
      assert !IsSpace(s[|s| - |l|]);
      LStripAppend(s, [c]);
      assert l' == l + [c];
      assert (l + [c])[..|l|] == l;
    }
  }

  lemma {:induction false} LStripAppend(s: string, x: string)
    requires exists i :: 0 <= i < |s| && !IsSpace(s[i])
    ensures LStrip(s + x) == LStrip(s) + x
    decreases |s|
  {
    assert (s + x)[1..] == s[1..] + x;
    if IsSpace(s[0]) {
      var i :| 0 <= i < |s| && !IsSpace(s[i]);
      assert s[1..][i - 1] == s[i];
      LStripAppend(s[1..], x);
    }
  }

  /** `splitlines()` gives the first line as the text before the first `'\n'`,
      and the remaining lines join back, up to surrounding whitespace, to the
      text after it. */
  lemma SplitLinesFields(s: string)
    requires s != ""
    ensures |SplitLines(s)| > 0
    ensures SplitLines(s)[0] == BeforeFirst(s, "\n")
    ensures Strip(Join(SplitLines(s)[1..], "\n")) == Strip(AfterFirst(s, "\n"))
  {
    ContainsChar(s, '\n');
    if '\n' in s {
      SplitLinesCut(s);
      JoinSplitLines(AfterFirst(s, "\n"));
    } else {
      SplitNone(s, '\n');
    }
  }

  /** A text with a line break splits into its first line and the lines of
      the rest. */
  lemma SplitLinesCut(s: string)
    requires '\n' in s
    ensures SplitLines(s) == [BeforeFirst(s, "\n")] + SplitLines(AfterFirst(s, "\n"))
  {
    ContainsChar(s, '\n');
    var a, b := BeforeFirst(s, "\n"), AfterFirst(s, "\n");
    assert s == a + "\n" + b;
    ContainsChar(a, '\n');
    SplitLinesBreak(a, b);
  }

  /** The lines after a first line without a break. */
  lemma SplitLinesBreak(a: string, b: string)
    requires '\n' !in a
    ensures SplitLines(a + "\n" + b) == [a] + SplitLines(b)
  {
    var s := a + "\n" + b;
    assert s == a + ['\n'] + b;
    SplitAppend(a, b, '\n');
    SplitNone(a, '\n');
    var p := Split(b, '\n');
    assert Split(s, '\n') == [a] + p;
    if b == "" {
      assert p == [""];
    } else {
      assert Split(s, '\n')[1..] == p;
      if p[|p| - 1] == "" {
        assert SplitLines(s) == [a] + p[..|p| - 1];
      }
    }
  }

  /** Joining the lines back gives the text up to surrounding whitespace. */
  lemma JoinSplitLines(b: string)
    ensures Strip(Join(SplitLines(b), "\n")) == Strip(b)
  {
    if b != "" {
      JoinLines(b);
      if b[|b| - 1] == '\n' {
        var b' := b[..|b| - 1];
        assert b == b' + ['\n'];
        StripTrailingSpace(b', '\n');
      }
    }
  }

  /** Joining the lines back gives the text without its final line break. */
  lemma JoinLines(b: string)
    requires b != ""
    ensures Join(SplitLines(b), "\n") == if b[|b| - 1] == '\n' then b[..|b| - 1] else b
  {
    SplitLastEmpty(b, '\n');
    if b[|b| - 1] == '\n' {
      var b' := b[..|b| - 1];
      assert b == b' + ['\n'] + "";
      SplitAppend(b', "", '\n');
      assert Split("", '\n') == [""];
      assert SplitLines(b) == Split(b', '\n');
      JoinSplit(b', '\n');
    } else {
      JoinSplit(b, '\n');
    }
  }

  /** Splitting and joining with a one-character key: how many pieces there are. */
  lemma {:induction false} JoinCount(parts: seq<string>, c: char)
    requires forall i :: 0 <= i < |parts| ==> c !in parts[i]
    requires |parts| > 0
    ensures multiset(Join(parts, [c]))[c] == |parts| - 1
    decreases |parts|
  {
    assert multiset(parts[0])[c] == 0;
    if |parts| > 1 {
      JoinCount(parts[1..], c);
    }
  }

  /** `s.split(c)[0]` stops at the first `c`. */
  lemma {:induction false} BeforeFirstAt(x: string, c: char, y: string)
    requires c !in x
    ensures BeforeFirst(x + ([c] + y), [c]) == x
    decreases |x|
  {
    var s := x + ([c] + y);
    if |x| > 0 {
      assert s[0] == x[0];
      assert s[1..] == x[1..] + ([c] + y);
      BeforeFirstAt(x[1..], c, y);
      assert x == [x[0]] + x[1..];
    } else {
      assert s == [c] + y;
    }
  }
}
