/** How both scripts rewrite a changelog file: the new text (an optional
    preamble and the new entry) is written first, then the old file is
    copied from its first line that starts with the heading marker `hdr`
    but not with the new entry's title. */
module Splice {
  import opened Wrappers
  import opened Strings
  import opened Markdown

  /** The line at which copying of the old file starts. */
  predicate IsAnchor(line: string, hdr: string, title: string) {
    StartsWith(line, hdr) && !StartsWith(line, title)
  }

  /** The index of the first anchor line, or the number of lines if there is
      none. */
  function FirstAnchor(lines: seq<string>, hdr: string, title: string): (k: nat)
    ensures k <= |lines|
  {
    if lines == [] then 0
    else if IsAnchor(lines[0], hdr, title) then 0
    else 1 + FirstAnchor(lines[1..], hdr, title)
  }

  /** The part of the old file that is kept. */
  function Tail(lines: seq<string>, hdr: string, title: string): seq<string> {
    lines[FirstAnchor(lines, hdr, title)..]
  }

  /** The new file: `head` followed by the kept tail of the old file, if
      there is an old file. */
  function Spliced(head: string, prev: Option<string>, hdr: string, title: string): string {
    head + (if prev.Some? then Concat(Tail(Lines(prev.value), hdr, title)) else "")
  }

  /** The copy loop over the old file's lines with its latching `ok` flag:
      nothing is written until the first anchor line, and from there on every
      line is written. (changelog.py omits the `not ok` test; setting a flag
      that is already set changes nothing.) */
  method CopyTail(lines: seq<string>, hdr: string, title: string) returns (written: string)
    ensures written == Concat(Tail(lines, hdr, title))
  {
    FirstAnchorFacts(lines, hdr, title);
    ghost var k := FirstAnchor(lines, hdr, title);
    var ok := false;
    written := "";
    var i := 0;
    while i < |lines|
      invariant 0 <= i <= |lines|
      invariant ok <==> k < i
      invariant written == if ok then Concat(lines[k..i]) else ""
    {
      var line := lines[i];
      if !ok && IsAnchor(line, hdr, title) {
        ok := true;
      }
      if ok {
        ConcatAppend(lines[k..i], [line]);
        assert lines[k..i + 1] == lines[k..i] + [line];
        written := written + line;
      }
      i := i + 1;
    }
    if !ok {
      assert lines[k..] == [];
    } else {
      assert lines[k..i] == lines[k..];
    }
  }

  /** `update_log` / `update_changes` writing the file: `head`, then the tail
      of the old file when it exists. */
  method WriteFile(head: string, prev: Option<string>, hdr: string, title: string) returns (file: string)
    ensures file == Spliced(head, prev, hdr, title)
  {
    file := head;
    if prev.Some? {
      var tail := CopyTail(Lines(prev.value), hdr, title);
      file := file + tail;
    }
  }

  /** The old file after the dirty-run check of changelog.py: a leftover
      temporary file is renamed onto a missing target. */
  function Recovered(target: Option<string>, tmp: Option<string>): (r: Option<string>)
    ensures tmp.Some? && target.None? ==> r == tmp
    ensures target.Some? ==> r == target
    ensures tmp.None? && target.None? ==> r.None?
  {
    if tmp.Some? && target.None? then tmp else target
  }

  // ---------------------------------------------------------------------------
  // Lemmas

  /** `FirstAnchor` is the first anchor: no line before it is one, and the line
      at it is one. */
  lemma {:induction false} FirstAnchorFacts(lines: seq<string>, hdr: string, title: string)
    ensures var k := FirstAnchor(lines, hdr, title);
      (forall i :: 0 <= i < k ==> !IsAnchor(lines[i], hdr, title)) &&
      (k < |lines| ==> IsAnchor(lines[k], hdr, title))
    decreases |lines|
  {
    if lines != [] && !IsAnchor(lines[0], hdr, title) {
      FirstAnchorFacts(lines[1..], hdr, title);
    }
  }

  /** The new file is the head followed by a suffix of the old file's lines:
      the kept lines are byte-identical and in order, and everything before
      the first anchor is dropped. A missing old file contributes nothing. */
  lemma SplicedShape(head: string, prev: Option<string>, hdr: string, title: string)
    ensures prev.None? ==> Spliced(head, prev, hdr, title) == head
    ensures prev.Some? ==>
      var lines := Lines(prev.value);
      var k := FirstAnchor(lines, hdr, title);
      Spliced(head, prev, hdr, title) == head + Concat(lines[k..]) &&
      (forall i :: 0 <= i < k ==> !IsAnchor(lines[i], hdr, title)) &&
      (k < |lines| ==> IsAnchor(lines[k], hdr, title))
  {
    if prev.Some? {
      FirstAnchorFacts(Lines(prev.value), hdr, title);
    }
  }

  /** Once copying has started it does not stop: every line after the first
      anchor is kept, even one that starts with the title (an older copy of
      the same entry further down). */
  lemma TailKeepsLaterLines(lines: seq<string>, hdr: string, title: string, j: nat)
    requires FirstAnchor(lines, hdr, title) <= j < |lines|
    ensures lines[j] in Tail(lines, hdr, title)
  {
    var k := FirstAnchor(lines, hdr, title);
    assert Tail(lines, hdr, title)[j - k] == lines[j];
  }

  lemma {:induction false} FirstAnchorAppend(a: seq<string>, b: seq<string>, hdr: string, title: string)
    requires forall i :: 0 <= i < |a| ==> !IsAnchor(a[i], hdr, title)
    ensures FirstAnchor(a + b, hdr, title) == |a| + FirstAnchor(b, hdr, title)
    decreases |a|
  {
    if a == [] {
      assert a + b == b;
    } else {
      assert (a + b)[0] == a[0];
      assert (a + b)[1..] == a[1..] + b;
      FirstAnchorAppend(a[1..], b, hdr, title);
    }
  }

  lemma WellFormedSuffix(ls: seq<string>, k: nat)
    requires WellFormed(ls) && k <= |ls|
    ensures WellFormed(ls[k..])
  {
    forall i | 0 <= i < |ls[k..]|
      ensures |ls[k..][i]| > 0 && '\n' !in ls[k..][i][..|ls[k..][i]| - 1] &&
        (i < |ls[k..]| - 1 ==> ls[k..][i][|ls[k..][i]| - 1] == '\n')
    {
      assert ls[k..][i] == ls[k + i];
    }
  }

  /** The lines of the kept text are the kept lines, the first of which (if
      any) is an anchor. */
  lemma TailLines(prev: Option<string>, hdr: string, title: string)
    ensures var t := if prev.Some? then Tail(Lines(prev.value), hdr, title) else [];
      Lines(if prev.Some? then Concat(t) else "") == t &&
      FirstAnchor(t, hdr, title) == 0
  {
    if prev.Some? {
      var lines := Lines(prev.value);
      var k := FirstAnchor(lines, hdr, title);
      FirstAnchorFacts(lines, hdr, title);
      LinesWellFormed(prev.value);
      WellFormedSuffix(lines, k);
      LinesConcat(lines[k..]);
    } else {
      assert Split("", '\n') == [""];
    }
  }

  /** Running the splice a second time with the same head on its own output
      changes nothing, as long as no line of the head is an anchor: the head's
      lines are skipped and the copy restarts exactly where the first run's
      tail began. */
  lemma SpliceIdempotent(head: string, prev: Option<string>, hdr: string, title: string)
    requires |head| > 0 && head[|head| - 1] == '\n'
    requires forall l :: l in Lines(head) ==> !IsAnchor(l, hdr, title)
    ensures Spliced(head, Some(Spliced(head, prev, hdr, title)), hdr, title) ==
      Spliced(head, prev, hdr, title)
  {
    var t := if prev.Some? then Tail(Lines(prev.value), hdr, title) else [];
    var rest := if prev.Some? then Concat(t) else "";
    var first := Spliced(head, prev, hdr, title);
    assert first == head + rest;
    TailLines(prev, hdr, title);
    LinesAppend(head, rest);
    var hl := Lines(head);
    assert Lines(first) == hl + t;
    forall i | 0 <= i < |hl| ensures !IsAnchor(hl[i], hdr, title) {
      assert hl[i] in hl;
    }
    FirstAnchorAppend(hl, t, hdr, title);
    assert Tail(Lines(first), hdr, title) == t;
    if prev.None? {
      assert Concat(t) == "";
    }
  }

  // ---------------------------------------------------------------------------
  // Lines of a head built from pieces

  /** No piece of `x` between newlines is an anchor. */
  predicate Quiet(x: string, hdr: string, title: string) {
    forall p :: p in Split(x, '\n') ==> !IsAnchor(p, hdr, title)
  }

  /** Joining two quiet texts with a newline gives a quiet text. */
  lemma QuietJoin(a: string, b: string, hdr: string, title: string)
    requires Quiet(a, hdr, title) && Quiet(b, hdr, title)
    ensures Quiet(a + "\n" + b, hdr, title)
  {
    SplitAppend(a, b, '\n');
  }

  /** The same across a blank line, with a non-empty marker. */
  lemma QuietJoin2(a: string, b: string, hdr: string, title: string)
    requires |hdr| > 0 && Quiet(a, hdr, title) && Quiet(b, hdr, title)
    ensures Quiet(a + "\n\n" + b, hdr, title)
  {
    assert Split("", '\n') == [""];
    QuietJoin(a, "", hdr, title);
    QuietJoin(a + "\n" + "", b, hdr, title);
    assert a + "\n" + "" + "\n" + b == a + "\n\n" + b;
  }

  /** A single line that is not an anchor. */
  lemma QuietLine(p: string, hdr: string, title: string)
    requires '\n' !in p && !IsAnchor(p, hdr, title)
    ensures Quiet(p, hdr, title)
  {
    SplitNone(p, '\n');
  }

  /** Text with no heading line is quiet for a heading marker. */
  lemma QuietPlain(x: string, hdr: string, title: string)
    requires |hdr| > 0 && hdr[0] == '#'
    requires forall i :: 0 <= i < |Split(x, '\n')| ==> Plain(Split(x, '\n')[i])
    ensures Quiet(x, hdr, title)
  {
    var ps := Split(x, '\n');
    forall p | p in ps ensures !IsAnchor(p, hdr, title) {
      var i :| 0 <= i < |ps| && ps[i] == p;
      assert Plain(ps[i]);
    }
  }

  /** Text shifted by a marker one `#` deeper than the heading marker is
      quiet: every heading now starts with `#` where the marker has its
      space, and every other line does not start with `#`. */
  lemma QuietShifted(s: string, marker: string, hdr: string, title: string)
    requires (hdr == "# " && marker == "##") || (hdr == "## " && marker == "###")
    ensures Quiet(Shift(s, marker), hdr, title)
  {
    var ps := Split(s, '\n');
    SplitShift(s, marker);
    ShiftLinesAt(ps, marker);
    var qs := ShiftLines(ps, marker);
    forall q | q in qs ensures !IsAnchor(q, hdr, title) {
      var i :| 0 <= i < |qs| && qs[i] == q;
      ShiftedLineNotAnchor(ps[i], marker, hdr, title);
    }
  }

  /** A line after the substitution is not an anchor: a heading has gained a
      level, so it does not have exactly the level of `hdr`. */
  lemma ShiftedLineNotAnchor(l: string, marker: string, hdr: string, title: string)
    requires (hdr == "# " && marker == "##") || (hdr == "## " && marker == "###")
    ensures !IsAnchor(ShiftLine(l, marker), hdr, title)
  {
    if |l| > 0 && l[0] == '#' {
      var q := marker + l[1..];
      assert q[|hdr| - 1] == '#';
    }
  }

  /** A piece is an anchor when its line is: the marker holds no newline, so
      the newline ending the line cannot help it match. */
  lemma AnchorPiece(p: string, hdr: string, title: string)
    requires '\n' !in hdr && !IsAnchor(p, hdr, title)
    ensures !IsAnchor(p + "\n", hdr, title)
  {
    var l := p + "\n";
    if StartsWith(l, hdr) {
      assert forall i :: 0 <= i < |hdr| ==> hdr[i] == l[i] && hdr[i] != '\n';
      assert l[|p|] == '\n';
      assert |hdr| <= |p|;
      assert l[..|hdr|] == p[..|hdr|];
    }
    if StartsWith(p, title) {
      assert l[..|title|] == p[..|title|];
    }
  }

  /** No line of a quiet text is an anchor. */
  lemma QuietLines(x: string, hdr: string, title: string)
    requires '\n' !in hdr && Quiet(x, hdr, title)
    ensures forall l :: l in Lines(x) ==> !IsAnchor(l, hdr, title)
  {
    var ps := Split(x, '\n');
    var init := ps[..|ps| - 1];
    var last := ps[|ps| - 1];
    var ls := Lines(x);
    assert ls == AddNewlines(init) + (if last == "" then [] else [last]);
    forall l | l in ls ensures !IsAnchor(l, hdr, title) {
      if l in AddNewlines(init) {
        var i :| 0 <= i < |init| && AddNewlines(init)[i] == l;
        assert init[i] == ps[i] && ps[i] in ps;
        AnchorPiece(ps[i], hdr, title);
      } else {
        assert l == last && last in ps;
      }
    }
  }

  /** A head made of quiet text and a closing blank line can be spliced
      again without effect. */
  lemma HeadIdempotent(x: string, prev: Option<string>, hdr: string, title: string)
    requires |hdr| > 0 && '\n' !in hdr && Quiet(x, hdr, title)
    ensures Spliced(x + "\n\n", Some(Spliced(x + "\n\n", prev, hdr, title)), hdr, title) ==
      Spliced(x + "\n\n", prev, hdr, title)
  {
    assert Split("", '\n') == [""];
    QuietJoin2(x, "", hdr, title);
    assert x + "\n\n" + "" == x + "\n\n";
    QuietLines(x + "\n\n", hdr, title);
    SpliceIdempotent(x + "\n\n", prev, hdr, title);
  }
}
