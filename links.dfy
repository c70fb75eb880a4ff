/** Rewriting of issue references into markdown links, as `re.sub` does it:
    the leftmost match is replaced, scanning resumes after it, and text between
    matches is copied.

    Qualified references follow `([a-z+-]+\/[a-z-]+)\#([0-9-]+)`; bare
    references follow `\#([0-9-]+)`. Each character class is followed in its
    pattern by a character outside it (or by nothing), so a match at a given
    position, if there is one, takes the longest run of each class and needs
    no backtracking. */
module IssueLinks {
  import opened Wrappers
  import opened Strings

  /** The character classes of the two patterns. */
  datatype CharClass = OwnerChars | RepoChars | NumberChars

  predicate InClass(c: char, k: CharClass) {
    match k
    case OwnerChars => ('a' <= c <= 'z') || c == '+' || c == '-'
    case RepoChars => ('a' <= c <= 'z') || c == '-'
    case NumberChars => ('0' <= c <= '9') || c == '-'
  }

  /** Length of the longest prefix of `s` drawn from class `k` (a greedy `[...]+`). */
  function Run(s: string, k: CharClass): (n: nat)
    ensures n <= |s|
  {
    if |s| > 0 && InClass(s[0], k) then 1 + Run(s[1..], k) else 0
  }

  /** The run is drawn from the class and is followed by a character outside it. */
  lemma {:induction false} RunFacts(s: string, k: CharClass)
    ensures AllIn(s[..Run(s, k)], k)
    ensures Run(s, k) < |s| ==> !InClass(s[Run(s, k)], k)
    decreases |s|
  {
    if |s| > 0 && InClass(s[0], k) {
      RunFacts(s[1..], k);
      assert s[..Run(s, k)] == [s[0]] + s[1..][..Run(s[1..], k)];
    }
  }

  /** A reference found at the start of the text: the `owner/repo` part (empty
      for a bare reference), the issue number and the length of the match. */
  datatype Ref = Ref(repo: string, number: string, length: nat)

  /** Every character of `s` is in class `k`. */
  predicate AllIn(s: string, k: CharClass) {
    forall i :: 0 <= i < |s| ==> InClass(s[i], k)
  }

  /** `([a-z+-]+\/[a-z-]+)\#([0-9-]+)` matched at position 0. */
  function QualifiedAt(s: string): Option<Ref> {
    var o := Run(s, OwnerChars);
    if o == 0 || o >= |s| || s[o] != '/' then None
    else
      var t := s[o + 1..];
      var p := Run(t, RepoChars);
      if p == 0 || p >= |t| || t[p] != '#' then None
      else
        var u := t[p + 1..];
        var n := Run(u, NumberChars);
        if n == 0 then None
        else Some(Ref(s[..o + 1 + p], u[..n], o + 1 + p + 1 + n))
  }

  /** A qualified match is `owner/repo`, `#` and a non-empty number, and the
      `owner/repo` part holds no `#`. */
  lemma QualifiedAtShape(s: string)
    requires QualifiedAt(s).Some?
    ensures var ref := QualifiedAt(s).value;
      && ref.length == |ref.repo| + 1 + |ref.number| <= |s|
      && s[..ref.length] == ref.repo + "#" + ref.number
      && |ref.number| > 0 && AllIn(ref.number, NumberChars)
      && '#' !in ref.repo
  {
    QualifiedAtSpan(s);
    QualifiedRepoNoHash(s);
  }

  /** The matched text is the `owner/repo` part, `#` and the number. */
  lemma QualifiedAtSpan(s: string)
    requires QualifiedAt(s).Some?
    ensures var ref := QualifiedAt(s).value;
      && ref.length == |ref.repo| + 1 + |ref.number| <= |s|
      && s[..ref.length] == ref.repo + "#" + ref.number
      && |ref.number| > 0 && AllIn(ref.number, NumberChars)
  {
    var o := Run(s, OwnerChars);
    var t := s[o + 1..];
    var p := Run(t, RepoChars);
    var u := t[p + 1..];
    var n := Run(u, NumberChars);
    assert QualifiedAt(s).value == Ref(s[..o + 1 + p], u[..n], o + 1 + p + 1 + n);
    RunFacts(u, NumberChars);
    var k := o + 1 + p;
    assert s[k] == t[p] == '#';
    assert u == s[k + 1..];
    assert u[..n] == s[k + 1..k + 1 + n];
    assert s[..k + 1 + n] == s[..k] + [s[k]] + s[k + 1..k + 1 + n];
  }

  /** The `owner/repo` part of a qualified match holds no `#`. */
  lemma QualifiedRepoNoHash(s: string)
    requires QualifiedAt(s).Some?
    ensures '#' !in QualifiedAt(s).value.repo
  {
    var o := Run(s, OwnerChars);
    var t := s[o + 1..];
    var p := Run(t, RepoChars);
    var repo := QualifiedAt(s).value.repo;
    RunFacts(s, OwnerChars);
    RunFacts(t, RepoChars);
    assert repo == s[..o] + "/" + t[..p];
    forall i | 0 <= i < |repo| ensures repo[i] != '#' {
      if i < o {
        assert InClass(s[..o][i], OwnerChars);
      } else if i > o {
        assert repo[i] == t[..p][i - o - 1];
        assert InClass(t[..p][i - o - 1], RepoChars);
      }
    }
  }

  /** `\#([0-9-]+)` matched at position 0. */
  function BareAt(s: string): (r: Option<Ref>)
    ensures r.Some? ==> (0 < r.value.length <= |s| &&
      s[..r.value.length] == "#" + r.value.number && r.value.number != "")
  {
    if |s| == 0 || s[0] != '#' then None
    else
      var n := Run(s[1..], NumberChars);
      if n == 0 then None else Some(Ref("", s[1..1 + n], 1 + n))
  }

  /** How a script words its links: the text before the number inside the
      backquotes, and the URL scheme. */
  datatype LinkStyle = LinkStyle(prefix: string, scheme: string)

  /** apxchangelog.py: `` [`N`](https://github.com/R/issues/N) ``. */
  const ApxStyle := LinkStyle("", "https")
  /** changelog.py: `` [`issue N`](http://github.com/R/issues/N) ``. */
  const DeployStyle := LinkStyle("issue ", "http")

  function IssueLink(style: LinkStyle, repo: string, number: string): string {
    "[`" + style.prefix + number + "`](" + style.scheme + "://github.com/" + repo + "/issues/" + number + ")"
  }

  /** First pass: every `owner/repo#N` becomes a link to that repository's issue. */
  function LinkQualified(s: string, style: LinkStyle): string
    decreases |s|
  {
    if |s| == 0 then ""
    else match QualifiedAt(s)
      case Some(ref) => IssueLink(style, ref.repo, ref.number) + LinkQualified(s[ref.length..], style)
      case None => [s[0]] + LinkQualified(s[1..], style)
  }

  /** Second pass: every `#N` becomes a link to issue N of `repo`. */
  function LinkBare(s: string, style: LinkStyle, repo: string): string
    decreases |s|
  {
    if |s| == 0 then ""
    else match BareAt(s)
      case Some(ref) => IssueLink(style, repo, ref.number) + LinkBare(s[ref.length..], style, repo)
      case None => [s[0]] + LinkBare(s[1..], style, repo)
  }

  /** Some `owner/repo#N` starts somewhere in `s`. */
  predicate HasQualifiedRef(s: string)
    decreases |s|
  {
    QualifiedAt(s).Some? || (|s| > 0 && HasQualifiedRef(s[1..]))
  }

  /** Some `#` in `s` is followed by a digit or `-`. */
  predicate HasBareRef(s: string)
    decreases |s|
  {
    BareAt(s).Some? || (|s| > 0 && HasBareRef(s[1..]))
  }

  /** changelog.py `Commit.fix_links`: only the qualified pass, in its own style. */
  function FixLinks(s: string): string {
    LinkQualified(s, DeployStyle)
  }

  /** apxchangelog.py `update_changes`: the qualified pass, then the bare pass
      pointing at the releases repository. */
  function ApxLinks(s: string, releasesRepo: string): string {
    LinkBare(LinkQualified(s, ApxStyle), ApxStyle, releasesRepo)
  }

  // ---------------------------------------------------------------------------
  // Lemmas

  /** A bare reference is where `#` meets a digit or `-`. */
  lemma BareAtChars(s: string)
    ensures BareAt(s).Some? <==> |s| >= 2 && s[0] == '#' && InClass(s[1], NumberChars)
  {
  }

  /** Text without a qualified reference is left as it is by the first pass. */
  lemma {:induction false} LinkQualifiedAbsent(s: string, style: LinkStyle)
    requires !HasQualifiedRef(s)
    ensures LinkQualified(s, style) == s
    decreases |s|
  {
    if |s| > 0 {
      LinkQualifiedAbsent(s[1..], style);
      assert s == [s[0]] + s[1..];
    }
  }

  /** Text without a bare reference is left as it is by the second pass. */
  lemma {:induction false} LinkBareAbsent(s: string, style: LinkStyle, repo: string)
    requires !HasBareRef(s)
    ensures LinkBare(s, style, repo) == s
    decreases |s|
  {
    if |s| > 0 {
      LinkBareAbsent(s[1..], style, repo);
      assert s == [s[0]] + s[1..];
    }
  }

  /** Every qualified reference holds a bare one (its `#N` part). */
  lemma {:induction false} QualifiedHasBare(s: string)
    requires HasQualifiedRef(s)
    ensures HasBareRef(s)
    decreases |s|
  {
    match QualifiedAt(s)
    case Some(ref) =>
      QualifiedAtShape(s);
      var k := |ref.repo|;
      assert s[k] == '#' && s[k + 1] == ref.number[0];
      assert s[k..][..2] == s[k..k + 2];
      BareSomewhere(s, k);
    case None =>
      QualifiedHasBare(s[1..]);
  }

  lemma {:induction false} BareSomewhere(s: string, k: nat)
    requires k < |s| && BareAt(s[k..]).Some?
    ensures HasBareRef(s)
    decreases k
  {
    if k > 0 {
      assert s[1..][k - 1..] == s[k..];
      BareSomewhere(s[1..], k - 1);
    }
  }

  /** A `/` is needed for a qualified reference, so text without one passes the
      first pass unchanged; in particular a bare `#N` is left alone by
      `fix_links`. */
  lemma {:induction false} NoSlashNoQualified(s: string)
    requires '/' !in s
    ensures !HasQualifiedRef(s)
    decreases |s|
  {
    if |s| > 0 {
      var o := Run(s, OwnerChars);
      RunFacts(s, OwnerChars);
      assert o < |s| ==> s[o] != '/';
      assert '/' !in s[1..];
      NoSlashNoQualified(s[1..]);
    }
  }

  /** Text with no `#` followed by a digit or `-` — headings, for one — passes
      both of apxchangelog.py's passes unchanged. */
  lemma ApxLinksKeepsRefFreeText(s: string, releasesRepo: string)
    requires !HasBareRef(s)
    ensures ApxLinks(s, releasesRepo) == s
  {
    if HasQualifiedRef(s) { QualifiedHasBare(s); }
    LinkQualifiedAbsent(s, ApxStyle);
    LinkBareAbsent(s, ApxStyle, releasesRepo);
  }

  /** A text holding no `#` has no reference of either kind. */
  lemma {:induction false} NoHashNoRef(s: string)
    requires '#' !in s
    ensures !HasBareRef(s)
    decreases |s|
  {
    if |s| > 0 {
      assert '#' !in s[1..];
      NoHashNoRef(s[1..]);
    }
  }

  /** Text holding no `#` in front of a reference leaves the second pass's work
      to the rest. */
  lemma {:induction false} LinkBareAppend(a: string, b: string, style: LinkStyle, repo: string)
    requires '#' !in a
    ensures LinkBare(a + b, style, repo) == a + LinkBare(b, style, repo)
    decreases |a|
  {
    if |a| > 0 {
      assert (a + b)[1..] == a[1..] + b;
      assert (a + b)[0] == a[0];
      assert '#' !in a[1..];
      assert BareAt(a + b).None?;
      assert LinkBare(a + b, style, repo) == [a[0]] + LinkBare((a + b)[1..], style, repo);
      LinkBareAppend(a[1..], b, style, repo);
      assert a == [a[0]] + a[1..];
    } else {
      assert a + b == b;
    }
  }

  lemma {:induction false} HasBareAppend(a: string, b: string)
    requires '#' !in a
    ensures HasBareRef(a + b) == HasBareRef(b)
    decreases |a|
  {
    if |a| > 0 {
      assert (a + b)[1..] == a[1..] + b;
      assert (a + b)[0] == a[0];
      assert '#' !in a[1..];
      HasBareAppend(a[1..], b);
    } else {
      assert a + b == b;
    }
  }

  /** The characters a link is built from: no `#` unless the repository name
      or the label brings one. */
  lemma IssueLinkNoHash(style: LinkStyle, repo: string, number: string)
    requires '#' !in style.prefix && '#' !in style.scheme && '#' !in repo && '#' !in number
    ensures '#' !in IssueLink(style, repo, number)
  {
  }

  /** What the second pass starts with: a link's `[` or the text's own first
      character. */
  lemma LinkBareFirst(s: string, style: LinkStyle, repo: string)
    requires |s| > 0
    ensures |LinkBare(s, style, repo)| > 0
    ensures LinkBare(s, style, repo)[0] == s[0] || LinkBare(s, style, repo)[0] == '['
  {
  }

  /** After the second pass no `#` is followed by a digit or `-`: every bare
      reference has become a link, provided the repository name brings no `#`. */
  lemma {:induction false} LinkBareLeavesNoRef(s: string, style: LinkStyle, repo: string)
    requires '#' !in style.prefix && '#' !in style.scheme && '#' !in repo
    ensures !HasBareRef(LinkBare(s, style, repo))
    decreases |s|
  {
    if |s| > 0 {
      match BareAt(s)
      case Some(ref) =>
        assert '#' !in ref.number by {
          RunFacts(s[1..], NumberChars);
          assert ref.number == s[1..][..Run(s[1..], NumberChars)];
          assert forall i :: 0 <= i < |ref.number| ==> InClass(ref.number[i], NumberChars);
        }
        IssueLinkNoHash(style, repo, ref.number);
        LinkBareLeavesNoRef(s[ref.length..], style, repo);
        HasBareAppend(IssueLink(style, repo, ref.number), LinkBare(s[ref.length..], style, repo));
      case None =>
        var rest := LinkBare(s[1..], style, repo);
        LinkBareLeavesNoRef(s[1..], style, repo);
        if s[0] == '#' {
          if |s| > 1 {
            LinkBareFirst(s[1..], style, repo);
          }
          assert BareAt([s[0]] + rest).None?;
          assert ([s[0]] + rest)[1..] == rest;
        } else {
          HasBareAppend([s[0]], rest);
        }
    }
  }

  /** apxchangelog.py leaves no `#N` unlinked. */
  lemma ApxLinksLeaveNoRef(s: string, releasesRepo: string)
    requires '#' !in releasesRepo
    ensures !HasBareRef(ApxLinks(s, releasesRepo))
  {
    LinkBareLeavesNoRef(LinkQualified(s, ApxStyle), ApxStyle, releasesRepo);
  }

  /** A link made by the first pass is not rewritten again by the second. */
  lemma {:induction false} QualifiedLinkStable(s: string, releasesRepo: string)
    requires QualifiedAt(s).Some?
    ensures var ref := QualifiedAt(s).value;
      ApxLinks(s, releasesRepo) ==
        IssueLink(ApxStyle, ref.repo, ref.number) +
        ApxLinks(s[ref.length..], releasesRepo)
  {
    var ref := QualifiedAt(s).value;
    QualifiedAtShape(s);
    assert '#' !in ref.number by {
      assert forall i :: 0 <= i < |ref.number| ==> InClass(ref.number[i], NumberChars);
    }
    IssueLinkNoHash(ApxStyle, ref.repo, ref.number);
    LinkBareAppend(IssueLink(ApxStyle, ref.repo, ref.number),
      LinkQualified(s[ref.length..], ApxStyle), ApxStyle, releasesRepo);
  }

  /** The greedy run of a class stops where the class does. */
  lemma {:induction false} RunPrefix(x: string, y: string, k: CharClass)
    requires AllIn(x, k) && (|y| == 0 || !InClass(y[0], k))
    ensures Run(x + y, k) == |x|
    decreases |x|
  {
    if |x| > 0 {
      assert (x + y)[1..] == x[1..] + y;
      RunPrefix(x[1..], y, k);
    } else {
      assert x + y == y;
    }
  }

  /** A run of class `k` followed by a character `c` outside it. */
  lemma RunThen(s: string, x: string, c: char, y: string, k: CharClass)
    requires s == x + ([c] + y) && AllIn(x, k) && !InClass(c, k)
    ensures Run(s, k) == |x| && s[|x|] == c && s[..|x|] == x && s[|x| + 1..] == y
  {
    RunPrefix(x, [c] + y, k);
  }

  /** `QualifiedAt` in terms of the three runs it measures. */
  lemma QualifiedAtRuns(s: string, o: nat, p: nat, n: nat)
    requires Run(s, OwnerChars) == o && 0 < o < |s| && s[o] == '/'
    requires Run(s[o + 1..], RepoChars) == p && 0 < p < |s[o + 1..]| && s[o + 1..][p] == '#'
    requires Run(s[o + 1..][p + 1..], NumberChars) == n && n > 0
    ensures QualifiedAt(s) == Some(Ref(s[..o + 1 + p], s[o + 1..][p + 1..][..n], o + 1 + p + 1 + n))
  {
  }

  /** The three runs of `owner/repo#N` followed by `rest`. */
  lemma QualifiedRuns(s: string, owner: string, repo: string, number: string, rest: string)
    requires s == owner + ("/" + (repo + ("#" + (number + rest))))
    requires AllIn(owner, OwnerChars) && AllIn(repo, RepoChars) && AllIn(number, NumberChars)
    requires |rest| == 0 || !InClass(rest[0], NumberChars)
    ensures Run(s, OwnerChars) == |owner| && s[|owner|] == '/'
    ensures s[|owner| + 1..] == repo + ("#" + (number + rest))
    ensures Run(s[|owner| + 1..], RepoChars) == |repo| && s[|owner| + 1..][|repo|] == '#'
    ensures s[|owner| + 1..][|repo| + 1..] == number + rest
    ensures Run(number + rest, NumberChars) == |number|
  {
    var u := number + rest;
    var t := repo + ("#" + u);
    RunThen(s, owner, '/', t, OwnerChars);
    RunThen(t, repo, '#', u, RepoChars);
    RunPrefix(number, rest, NumberChars);
  }

  lemma QualifiedAtSlices(s: string, owner: string, repo: string, number: string, rest: string)
    requires s == owner + ("/" + (repo + ("#" + (number + rest))))
    requires |owner| > 0 && |repo| > 0 && |number| > 0
    requires Run(s, OwnerChars) == |owner| && s[|owner|] == '/'
    requires s[|owner| + 1..] == repo + ("#" + (number + rest))
    requires Run(s[|owner| + 1..], RepoChars) == |repo| && s[|owner| + 1..][|repo|] == '#'
    requires s[|owner| + 1..][|repo| + 1..] == number + rest
    requires Run(number + rest, NumberChars) == |number|
    ensures QualifiedAt(s) ==
      Some(Ref(s[..|owner| + 1 + |repo|], number, |owner| + 1 + |repo| + 1 + |number|))
  {
    var o, p, n := |owner|, |repo|, |number|;
    QualifiedAtRuns(s, o, p, n);
    assert (number + rest)[..n] == number;
  }

  lemma OwnerRepoSlice(s: string, owner: string, repo: string, number: string, rest: string)
    requires s == owner + ("/" + (repo + ("#" + (number + rest))))
    ensures s[..|owner| + 1 + |repo|] == owner + "/" + repo
  {
    assert s == (owner + "/" + repo) + ("#" + (number + rest));
  }

  /** Any `owner/repo#N` whose number is not followed by another number
      character is matched as a whole. */
  lemma QualifiedAtComplete(s: string, owner: string, repo: string, number: string, rest: string)
    requires s == owner + ("/" + (repo + ("#" + (number + rest))))
    requires |owner| > 0 && AllIn(owner, OwnerChars)
    requires |repo| > 0 && AllIn(repo, RepoChars)
    requires |number| > 0 && AllIn(number, NumberChars)
    requires |rest| == 0 || !InClass(rest[0], NumberChars)
    ensures QualifiedAt(s) ==
      Some(Ref(owner + "/" + repo, number, |owner| + 1 + |repo| + 1 + |number|))
  {
    QualifiedRuns(s, owner, repo, number, rest);
    QualifiedAtSlices(s, owner, repo, number, rest);
    OwnerRepoSlice(s, owner, repo, number, rest);
  }

  /** `owner/repo#N` becomes a link to issue N of `owner/repo`, which the
      second pass does not touch again; the rest of the text is rewritten on
      its own. */
  lemma QualifiedRefLinked(owner: string, repo: string, number: string, rest: string, releasesRepo: string)
    requires |owner| > 0 && AllIn(owner, OwnerChars)
    requires |repo| > 0 && AllIn(repo, RepoChars)
    requires |number| > 0 && AllIn(number, NumberChars)
    requires |rest| == 0 || !InClass(rest[0], NumberChars)
    ensures ApxLinks(owner + ("/" + (repo + ("#" + (number + rest)))), releasesRepo) ==
      IssueLink(ApxStyle, owner + "/" + repo, number) + ApxLinks(rest, releasesRepo)
  {
    var s := owner + ("/" + (repo + ("#" + (number + rest))));
    QualifiedAtComplete(s, owner, repo, number, rest);
    var ref := Ref(owner + "/" + repo, number, |owner| + 1 + |repo| + 1 + |number|);
    assert s[ref.length..] == rest;
    LinkedAt(s, ref, rest, releasesRepo);
  }

  lemma LinkedAt(s: string, ref: Ref, rest: string, releasesRepo: string)
    requires QualifiedAt(s) == Some(ref) && ref.length <= |s| && s[ref.length..] == rest
    ensures ApxLinks(s, releasesRepo) == IssueLink(ApxStyle, ref.repo, ref.number) + ApxLinks(rest, releasesRepo)
  {
    QualifiedLinkStable(s, releasesRepo);
  }

  /** `#N`, with N the longest run of number characters, becomes a link to
      issue N of `repo`; the rest of the text is rewritten on its own. */
  lemma BareLinked(number: string, rest: string, style: LinkStyle, repo: string)
    requires |number| > 0 && AllIn(number, NumberChars)
    requires |rest| == 0 || !InClass(rest[0], NumberChars)
    ensures LinkBare("#" + (number + rest), style, repo) ==
      IssueLink(style, repo, number) + LinkBare(rest, style, repo)
  {
    var s := "#" + (number + rest);
    assert s[1..] == number + rest;
    RunPrefix(number, rest, NumberChars);
    assert s[1..1 + |number|] == number;
    assert BareAt(s) == Some(Ref("", number, 1 + |number|));
    assert s[1 + |number|..] == rest;
  }

  /** The first pass copies a run of digits, none of which can start an
      owner, and goes on after it. */
  lemma {:induction false} DigitsFirstPass(number: string, rest: string)
    requires forall i :: 0 <= i < |number| ==> '0' <= number[i] <= '9'
    ensures LinkQualified(number + rest, ApxStyle) == number + LinkQualified(rest, ApxStyle)
    decreases |number|
  {
    if |number| > 0 {
      var c, tail := number[0], number[1..];
      calc {
        LinkQualified(number + rest, ApxStyle);
        { assert number + rest == [c] + (tail + rest); }
        LinkQualified([c] + (tail + rest), ApxStyle);
        { LinkQualifiedCons(c, tail + rest, ApxStyle); }
        [c] + LinkQualified(tail + rest, ApxStyle);
        { DigitsFirstPass(tail, rest); }
        [c] + (tail + LinkQualified(rest, ApxStyle));
        { assert number == [c] + tail; }
        number + LinkQualified(rest, ApxStyle);
      }
    } else {
      assert number + rest == rest;
    }
  }

  /** A character that cannot start an owner is copied by the first pass. */
  lemma LinkQualifiedCons(c: char, t: string, style: LinkStyle)
    requires !InClass(c, OwnerChars)
    ensures LinkQualified([c] + t, style) == [c] + LinkQualified(t, style)
  {
    NoOwnerNoQualified([c] + t);
    assert ([c] + t)[1..] == t;
  }

  /** A qualified reference starts with an owner character. */
  lemma NoOwnerNoQualified(s: string)
    requires |s| > 0 && !InClass(s[0], OwnerChars)
    ensures QualifiedAt(s) == None
  {
    assert Run(s, OwnerChars) == 0;
  }

  /** What the first pass starts with: a link's `[` or the text's own first
      character. */
  lemma LinkQualifiedFirst(s: string, style: LinkStyle)
    requires |s| > 0
    ensures |LinkQualified(s, style)| > 0
    ensures LinkQualified(s, style)[0] == s[0] || LinkQualified(s, style)[0] == '['
  {
  }

  /** apxchangelog.py: a bare `#N` with a number of digits becomes a link to
      issue N of the releases repository; the rest of the text is rewritten
      on its own. */
  lemma ApxBareLinked(number: string, rest: string, releasesRepo: string)
    requires |number| > 0 && forall i :: 0 <= i < |number| ==> '0' <= number[i] <= '9'
    requires |rest| == 0 || !InClass(rest[0], NumberChars)
    ensures ApxLinks("#" + (number + rest), releasesRepo) ==
      IssueLink(ApxStyle, releasesRepo, number) + ApxLinks(rest, releasesRepo)
  {
    var q := LinkQualified(rest, ApxStyle);
    BareFirstPass(number, rest);
    if |rest| > 0 {
      LinkQualifiedFirst(rest, ApxStyle);
    }
    BareLinked(number, q, ApxStyle, releasesRepo);
  }

  /** The first pass copies a bare `#N` with a number of digits. */
  lemma BareFirstPass(number: string, rest: string)
    requires forall i :: 0 <= i < |number| ==> '0' <= number[i] <= '9'
    ensures LinkQualified("#" + (number + rest), ApxStyle) ==
      "#" + (number + LinkQualified(rest, ApxStyle))
  {
    assert "#" + (number + rest) == ['#'] + (number + rest);
    LinkQualifiedCons('#', number + rest, ApxStyle);
    DigitsFirstPass(number, rest);
  }

  /** A bare `#42` links to issue 42 of the releases repository. */
  lemma BareExample()
    ensures ApxLinks("#42", "acme/widgets") ==
      IssueLink(ApxStyle, "acme/widgets", "42")
  {
    var b := "#42";
    NoSlashNoQualified(b);
    LinkQualifiedAbsent(b, ApxStyle);
    assert b[1..] == "42" + "";
    RunPrefix("42", "", NumberChars);
    assert b[1..3] == "42";
    assert BareAt(b) == Some(Ref("", "42", 3));
    assert b[3..] == "";
    assert LinkBare(b, ApxStyle, "acme/widgets") ==
      IssueLink(ApxStyle, "acme/widgets", "42") + LinkBare("", ApxStyle, "acme/widgets");
    assert LinkBare("", ApxStyle, "acme/widgets") == "";
    assert LinkQualified(b, ApxStyle) == b;
  }

  /** `fix_links` leaves a bare `#7` alone. */
  lemma FixLinksBareExample()
    ensures FixLinks("#7") == "#7"
  {
    NoSlashNoQualified("#7");
    LinkQualifiedAbsent("#7", DeployStyle);
  }

  /** Rewriting links never empties a text. */
  lemma ApxLinksNonEmpty(s: string, releasesRepo: string)
    requires s != ""
    ensures ApxLinks(s, releasesRepo) != ""
  {
    var q := LinkQualified(s, ApxStyle);
    assert q != "" by {
      if QualifiedAt(s).Some? {
        assert |IssueLink(ApxStyle, QualifiedAt(s).value.repo, QualifiedAt(s).value.number)| > 0;
      }
    }
    if BareAt(q).Some? {
      assert |IssueLink(ApxStyle, releasesRepo, BareAt(q).value.number)| > 0;
    }
  }
}
