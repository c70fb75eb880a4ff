/** The collection step shared by both scripts: commits are sorted by
    commit time (stably), uncategorised ones are dropped, and `Commits`
    groups the survivors by category and gathers the labelled comments. */
module Collection {
  import opened Wrappers
  import opened Strings
  import opened CommitModel

  /** The dictionary key of a commit, `commit.category`. */
  function Category(c: Commit): Option<string> {
    if c.kind.Some? then Some(c.kind.value.category) else None
  }

  /** `list(map(Commit, commits))`: every raw commit parsed in order; `None`
      when some message is blank, on which the constructor raises. */
  function ParseAll(raws: seq<RawCommit>, tool: Tool): (r: Option<seq<Commit>>)
    ensures r.Some? ==> |r.value| == |raws|
  {
    if raws == [] then Some([])
    else
      var head := ParseCommit(raws[0], tool);
      var rest := ParseAll(raws[1..], tool);
      if head.None? || rest.None? then None else Some([head.value] + rest.value)
  }

  /** Parsing fails exactly when some message is blank. */
  lemma {:induction false} ParseAllFails(raws: seq<RawCommit>, tool: Tool)
    ensures ParseAll(raws, tool).None? <==>
      exists i :: 0 <= i < |raws| && Strip(raws[i].message) == ""
    decreases |raws|
  {
    if raws != [] {
      ParseAllFails(raws[1..], tool);
      ParseCommitBlank(raws[0], tool);
      assert forall i :: 0 < i < |raws| ==> raws[i] == raws[1..][i - 1];
    }
  }

  lemma ParseAllCons(raws: seq<RawCommit>, tool: Tool, cs: seq<Commit>)
    requires raws != [] && ParseAll(raws, tool) == Some(cs)
    ensures ParseCommit(raws[0], tool) == Some(cs[0]) && ParseAll(raws[1..], tool) == Some(cs[1..])
  {
  }

  /** Otherwise the i-th commit is the i-th raw commit parsed. */
  lemma {:induction false} ParseAllAt(raws: seq<RawCommit>, tool: Tool, cs: seq<Commit>)
    requires ParseAll(raws, tool) == Some(cs)
    ensures forall i :: 0 <= i < |raws| ==> ParseCommit(raws[i], tool) == Some(cs[i])
    decreases |raws|
  {
    if raws != [] {
      ParseAllCons(raws, tool, cs);
      ParseAllAt(raws[1..], tool, cs[1..]);
      forall i | 0 < i < |raws| ensures ParseCommit(raws[i], tool) == Some(cs[i]) {
        assert raws[i] == raws[1..][i - 1] && cs[i] == cs[1..][i - 1];
      }
    }
  }

  // ---------------------------------------------------------------------------
  // `sorted(commits, key=lambda c: c.date)`

  predicate SortedByDate(cs: seq<Commit>) {
    forall i, j :: 0 <= i < j < |cs| ==> cs[i].date <= cs[j].date
  }

  /** Inserts `x` after every element whose date is not later than its own. */
  function Insert(x: Commit, s: seq<Commit>): seq<Commit> {
    if s == [] then [x]
    else if x.date < s[0].date then [x] + s
    else [s[0]] + Insert(x, s[1..])
  }

  /** The stable sort by date, as an insertion sort taking commits in order. */
  function SortByDate(cs: seq<Commit>): seq<Commit> {
    if cs == [] then [] else Insert(cs[|cs| - 1], SortByDate(cs[..|cs| - 1]))
  }

  /** The commits with a given date, in their order. */
  function WithDate(cs: seq<Commit>, d: int): seq<Commit> {
    if cs == [] then []
    else (if cs[0].date == d then [cs[0]] else []) + WithDate(cs[1..], d)
  }

  // ---------------------------------------------------------------------------
  // `filter(lambda c: c.category, commits)`. A matched category is never empty,
  // so truthiness is the same as being classified.

  function Classified(cs: seq<Commit>): seq<Commit> {
    if cs == [] then []
    else (if cs[0].kind.Some? then [cs[0]] else []) + Classified(cs[1..])
  }

  // ---------------------------------------------------------------------------
  // What `Commits.__init__` builds.

  /** The commits of one category, in order. */
  function Group(cs: seq<Commit>, k: Option<string>): seq<Commit> {
    if cs == [] then []
    else (if Category(cs[0]) == k then [cs[0]] else []) + Group(cs[1..], k)
  }

  function Keys(cs: seq<Commit>): set<Option<string>> {
    set i | 0 <= i < |cs| :: Category(cs[i])
  }

  /** `groups`: every category that occurs, mapped to its commits. */
  function GroupsOf(cs: seq<Commit>): map<Option<string>, seq<Commit>> {
    map k | k in Keys(cs) :: Group(cs, k)
  }

  /** `defaultdict(list)` lookup: a missing key reads as the empty list. */
  function Lookup(groups: map<Option<string>, seq<Commit>>, k: Option<string>): seq<Commit> {
    if k in groups then groups[k] else []
  }

  /** The commits that carry a comment, in order. */
  function Commented(cs: seq<Commit>): seq<Commit> {
    if cs == [] then []
    else (if |cs[0].comment| > 0 then [cs[0]] else []) + Commented(cs[1..])
  }

  /** One entry of `comments`: the text before the first `(` of the subject,
      trimmed and set in bold, then the comment. apxchangelog.py puts a
      newline in front. */
  function Label(c: Commit, tool: Tool): string {
    (if tool == Apx then "\n" else "") + ("**" + (LabelText(c) + ("**\n\n" + c.comment)))
  }

  /** `commit.subject.split('(')[0].strip()`. */
  function LabelText(c: Commit): string {
    Strip(BeforeFirst(c.subject, "("))
  }

  function Labels(cs: seq<Commit>, tool: Tool): seq<string> {
    if cs == [] then [] else [Label(cs[0], tool)] + Labels(cs[1..], tool)
  }

  /** The Jinja template `changes.jinja2`, rendered from the sorted and
      filtered commits, their groups and (when asked for) the comments. */
  type Renderer = (seq<Commit>, map<Option<string>, seq<Commit>>, Option<seq<string>>) -> string

  /** What the template is given: the commits sorted by date with the
      uncategorised ones dropped, their groups and, when asked for, the
      labelled comments. */
  function Rendered(commits: seq<Commit>, doComments: bool, render: Renderer, tool: Tool): string {
    var kept := Classified(SortByDate(commits));
    render(kept, GroupsOf(kept), if doComments then Some(Labels(Commented(kept), tool)) else None)
  }

  /** The `Commits` object. */
  class Commits {
    const name: string
    var commits: seq<Commit>
    var groups: map<Option<string>, seq<Commit>>
    var comments: seq<string>

    constructor (cs: seq<Commit>, tool: Tool)
      ensures name == "Unreleased" && commits == cs
      ensures groups == GroupsOf(cs)
      ensures comments == Labels(Commented(cs), tool)
    {
      name := "Unreleased";
      commits := cs;
      groups := map[];
      comments := [];
      new;
      var i := 0;
      assert cs[..0] == [];
      GroupsOfEmpty();
      while i < |cs|
        invariant 0 <= i <= |cs|
        invariant name == "Unreleased" && commits == cs
        invariant groups == GroupsOf(cs[..i])
        invariant comments == Labels(Commented(cs[..i]), tool)
      {
        var c := cs[i];
        PrefixStep(cs, i, tool);
        AddCommit(c);
        if |c.comment| > 0 {
          comments := comments + [Label(c, tool)];
        }
        i := i + 1;
      }
      assert cs[..i] == cs;
    }

    /** `add_commit`: appends the commit to the list of its category. */
    method AddCommit(c: Commit)
      modifies this`groups
      ensures groups == old(groups)[Category(c) := Lookup(old(groups), Category(c)) + [c]]
    {
      var k := Category(c);
      groups := groups[k := Lookup(groups, k) + [c]];
    }
  }

  // ---------------------------------------------------------------------------
  // Lemmas: sorting

  lemma {:induction false} InsertMembers(x: Commit, s: seq<Commit>)
    ensures multiset(Insert(x, s)) == multiset(s) + multiset{x}
    ensures |Insert(x, s)| == |s| + 1
    decreases |s|
  {
    if s != [] && x.date >= s[0].date {
      InsertMembers(x, s[1..]);
      assert s == [s[0]] + s[1..];
    }
  }

  lemma {:induction false} InsertSorted(x: Commit, s: seq<Commit>)
    requires SortedByDate(s)
    ensures SortedByDate(Insert(x, s))
    decreases |s|
  {
    if s != [] && x.date >= s[0].date {
      InsertSorted(x, s[1..]);
      var r := Insert(x, s[1..]);
      InsertMembers(x, s[1..]);
      forall j | 0 <= j < |r|
        ensures s[0].date <= r[j].date
      {
        assert r[j] in multiset(r);
        assert r[j] in multiset(s[1..]) + multiset{x};
        if r[j] != x {
          assert r[j] in s[1..];
        }
      }
    }
  }

  /** The sort orders by date. */
  lemma {:induction false} SortSorted(cs: seq<Commit>)
    ensures SortedByDate(SortByDate(cs))
    decreases |cs|
  {
    if cs != [] {
      SortSorted(cs[..|cs| - 1]);
      InsertSorted(cs[|cs| - 1], SortByDate(cs[..|cs| - 1]));
    }
  }

  /** The sort rearranges the commits and drops none. */
  lemma {:induction false} SortPermutes(cs: seq<Commit>)
    ensures multiset(SortByDate(cs)) == multiset(cs)
    decreases |cs|
  {
    if cs != [] {
      var init := cs[..|cs| - 1];
      SortPermutes(init);
      InsertMembers(cs[|cs| - 1], SortByDate(init));
      assert cs == init + [cs[|cs| - 1]];
    }
  }

  lemma {:induction false} WithDateAppend(a: seq<Commit>, b: seq<Commit>, d: int)
    ensures WithDate(a + b, d) == WithDate(a, d) + WithDate(b, d)
    decreases |a|
  {
    if a == [] {
      assert a + b == b;
    } else {
      assert (a + b)[1..] == a[1..] + b;
      WithDateAppend(a[1..], b, d);
    }
  }

  lemma {:induction false} WithDateLater(s: seq<Commit>, d: int)
    requires forall i :: 0 <= i < |s| ==> d < s[i].date
    ensures WithDate(s, d) == []
    decreases |s|
  {
    if s != [] {
      WithDateLater(s[1..], d);
    }
  }

  lemma {:induction false} InsertStable(x: Commit, s: seq<Commit>, d: int)
    requires SortedByDate(s)
    ensures WithDate(Insert(x, s), d) == WithDate(s, d) + (if x.date == d then [x] else [])
    decreases |s|
  {
    if s == [] {
    } else if x.date < s[0].date {
      assert Insert(x, s) == [x] + s;
      assert ([x] + s)[1..] == s;
      if x.date == d {
        WithDateLater(s, d);
      }
    } else {
      var head: seq<Commit> := if s[0].date == d then [s[0]] else [];
      InsertStable(x, s[1..], d);
      assert ([s[0]] + Insert(x, s[1..]))[1..] == Insert(x, s[1..]);
      assert WithDate(Insert(x, s), d) == head + WithDate(Insert(x, s[1..]), d);
    }
  }

  /** The sort is stable: commits with equal dates keep their relative order. */
  lemma {:induction false} SortStable(cs: seq<Commit>, d: int)
    ensures WithDate(SortByDate(cs), d) == WithDate(cs, d)
    decreases |cs|
  {
    if cs != [] {
      var init, x := cs[..|cs| - 1], cs[|cs| - 1];
      SortStable(init, d);
      SortSorted(init);
      InsertStable(x, SortByDate(init), d);
      assert cs == init + [x];
      WithDateAppend(init, [x], d);
    }
  }

  /** The filter keeps exactly the classified commits, each as often as
      the input holds it. */
  lemma {:induction false} ClassifiedAll(cs: seq<Commit>)
    ensures forall i :: 0 <= i < |Classified(cs)| ==> Classified(cs)[i].kind.Some?
    ensures multiset(Classified(cs)) <= multiset(cs)
    ensures forall c :: multiset(Classified(cs))[c] == if c.kind.Some? then multiset(cs)[c] else 0
    decreases |cs|
  {
    if cs != [] {
      ClassifiedAll(cs[1..]);
      assert cs == [cs[0]] + cs[1..];
    }
  }

  /** The filter works commit by commit, so the kept commits keep their
      relative order. */
  lemma {:induction false} ClassifiedAppend(a: seq<Commit>, b: seq<Commit>)
    ensures Classified(a + b) == Classified(a) + Classified(b)
    decreases |a|
  {
    if a == [] {
      assert a + b == b;
    } else {
      var head := if a[0].kind.Some? then [a[0]] else [];
      assert (a + b)[0] == a[0];
      assert (a + b)[1..] == a[1..] + b;
      assert Classified(a + b) == head + Classified(a[1..] + b);
      assert Classified(a) == head + Classified(a[1..]);
      ClassifiedAppend(a[1..], b);
    }
  }

  /** Dropping commits keeps the date order. */
  lemma {:induction false} ClassifiedSorted(cs: seq<Commit>)
    requires SortedByDate(cs)
    ensures SortedByDate(Classified(cs))
    decreases |cs|
  {
    if cs != [] {
      ClassifiedSorted(cs[1..]);
      ClassifiedAll(cs[1..]);
      var r := Classified(cs[1..]);
      forall j | 0 <= j < |r|
        ensures cs[0].date <= r[j].date
      {
        assert r[j] in multiset(r);
        assert r[j] in cs[1..];
      }
    }
  }

  // ---------------------------------------------------------------------------
  // Lemmas: grouping and comments

  lemma {:induction false} GroupAppend(a: seq<Commit>, b: seq<Commit>, k: Option<string>)
    ensures Group(a + b, k) == Group(a, k) + Group(b, k)
    decreases |a|
  {
    if a == [] {
      assert a + b == b;
    } else {
      assert (a + b)[1..] == a[1..] + b;
      GroupAppend(a[1..], b, k);
    }
  }

  lemma {:induction false} GroupAbsent(cs: seq<Commit>, k: Option<string>)
    requires k !in Keys(cs)
    ensures Group(cs, k) == []
    decreases |cs|
  {
    if cs != [] {
      assert Category(cs[0]) in Keys(cs);
      assert Keys(cs[1..]) <= Keys(cs) by {
        forall k' | k' in Keys(cs[1..]) ensures k' in Keys(cs) {
          var i :| 0 <= i < |cs[1..]| && Category(cs[1..][i]) == k';
          assert Category(cs[i + 1]) == k';
        }
      }
      GroupAbsent(cs[1..], k);
    }
  }

  /** The step of the constructor's loop: `add_commit` on the groups of a
      prefix gives the groups of the longer prefix. */
  lemma GroupsOfSnoc(cs: seq<Commit>, c: Commit)
    ensures GroupsOf(cs + [c]) == GroupsOf(cs)[Category(c) := Lookup(GroupsOf(cs), Category(c)) + [c]]
  {
    var g, g' := GroupsOf(cs), GroupsOf(cs + [c]);
    var k := Category(c);
    var expected := g[k := Lookup(g, k) + [c]];
    assert Keys(cs + [c]) == Keys(cs) + {k} by {
      forall k' | k' in Keys(cs + [c]) ensures k' in Keys(cs) + {k} {
        var i :| 0 <= i < |cs + [c]| && Category((cs + [c])[i]) == k';
        if i < |cs| {
          assert (cs + [c])[i] == cs[i];
        }
      }
      forall k' | k' in Keys(cs) + {k} ensures k' in Keys(cs + [c]) {
        if k' == k {
          assert Category((cs + [c])[|cs|]) == k;
        } else {
          var i :| 0 <= i < |cs| && Category(cs[i]) == k';
          assert (cs + [c])[i] == cs[i];
        }
      }
    }
    forall k' | k' in Keys(cs + [c])
      ensures g'[k'] == expected[k']
    {
      GroupAppend(cs, [c], k');
      assert Group([c], k') == if k == k' then [c] else [];
      if k' == k && k !in Keys(cs) {
        GroupAbsent(cs, k);
      }
    }
    assert g'.Keys == expected.Keys;
  }

  lemma GroupsOfEmpty()
    ensures GroupsOf([]) == map[]
  {
    assert Keys([]) == {};
  }

  /** One iteration of the constructor's loop, on the prefixes it has seen. */
  lemma PrefixStep(cs: seq<Commit>, i: nat, tool: Tool)
    requires i < |cs|
    ensures var k := Category(cs[i]);
      GroupsOf(cs[..i + 1]) == GroupsOf(cs[..i])[k := Lookup(GroupsOf(cs[..i]), k) + [cs[i]]]
    ensures Labels(Commented(cs[..i + 1]), tool) ==
      Labels(Commented(cs[..i]), tool) + (if |cs[i].comment| > 0 then [Label(cs[i], tool)] else [])
  {
    assert cs[..i + 1] == cs[..i] + [cs[i]];
    GroupsOfSnoc(cs[..i], cs[i]);
    CommentedSnoc(cs[..i], cs[i], tool);
  }

  lemma {:induction false} CommentedAppend(a: seq<Commit>, b: seq<Commit>)
    ensures Commented(a + b) == Commented(a) + Commented(b)
    decreases |a|
  {
    if a == [] {
      assert a + b == b;
    } else {
      assert (a + b)[1..] == a[1..] + b;
      CommentedAppend(a[1..], b);
    }
  }

  lemma {:induction false} LabelsAppend(a: seq<Commit>, b: seq<Commit>, tool: Tool)
    ensures Labels(a + b, tool) == Labels(a, tool) + Labels(b, tool)
    decreases |a|
  {
    if a == [] {
      assert a + b == b;
    } else {
      assert (a + b)[1..] == a[1..] + b;
      LabelsAppend(a[1..], b, tool);
    }
  }

  /** Entry `i` of the labels is the label of commit `i`. */
  lemma LabelsIndex(cs: seq<Commit>, tool: Tool)
    ensures |Labels(cs, tool)| == |cs|
    ensures forall i {:trigger Labels(cs, tool)[i]} :: 0 <= i < |cs| ==> Labels(cs, tool)[i] == Label(cs[i], tool)
  {
    LabelsLength(cs, tool);
    forall i | 0 <= i < |cs|
      ensures Labels(cs, tool)[i] == Label(cs[i], tool)
    {
      LabelsAt(cs, tool, i);
    }
  }

  lemma {:induction false} LabelsLength(cs: seq<Commit>, tool: Tool)
    ensures |Labels(cs, tool)| == |cs|
    decreases |cs|
  {
    if cs != [] {
      LabelsLength(cs[1..], tool);
    }
  }

  lemma {:induction false} LabelsAt(cs: seq<Commit>, tool: Tool, i: nat)
    requires i < |cs|
    ensures i < |Labels(cs, tool)| && Labels(cs, tool)[i] == Label(cs[i], tool)
    decreases i
  {
    var r := Labels(cs[1..], tool);
    assert Labels(cs, tool) == [Label(cs[0], tool)] + r;
    if i > 0 {
      LabelsAt(cs[1..], tool, i - 1);
      assert cs[1..][i - 1] == cs[i];
    }
  }

  /** The step of the constructor's loop for `comments`. */
  lemma CommentedSnoc(cs: seq<Commit>, c: Commit, tool: Tool)
    ensures Labels(Commented(cs + [c]), tool) ==
      Labels(Commented(cs), tool) + (if |c.comment| > 0 then [Label(c, tool)] else [])
  {
    var a, b := Commented(cs), Commented([c]);
    CommentedAppend(cs, [c]);
    LabelsAppend(a, b, tool);
    assert b == (if |c.comment| > 0 then [c] else []) + Commented([]);
    if |c.comment| > 0 {
      assert b == [c];
      assert Labels(b, tool) == [Label(c, tool)];
    } else {
      assert b == [];
    }
  }

  /** `groups[k]` lists exactly the commits of category `k`, in their order:
      a commit occurs in the group as often as in the input when its category
      is `k`, and not at all otherwise. */
  lemma {:induction false} GroupExact(cs: seq<Commit>, k: Option<string>, c: Commit)
    ensures multiset(Group(cs, k))[c] == if Category(c) == k then multiset(cs)[c] else 0
    decreases |cs|
  {
    if cs != [] {
      GroupExact(cs[1..], k, c);
      assert cs == [cs[0]] + cs[1..];
    }
  }

  /** Groups of a date-sorted list are date-sorted. */
  lemma {:induction false} GroupSorted(cs: seq<Commit>, k: Option<string>)
    requires SortedByDate(cs)
    ensures SortedByDate(Group(cs, k))
    decreases |cs|
  {
    if cs != [] {
      GroupSorted(cs[1..], k);
      var r := Group(cs[1..], k);
      forall j | 0 <= j < |r|
        ensures cs[0].date <= r[j].date
      {
        GroupExact(cs[1..], k, r[j]);
        assert r[j] in multiset(r);
        assert r[j] in cs[1..];
      }
    }
  }

  /** After the filter no commit is grouped under `None`. */
  lemma NoNoneKey(cs: seq<Commit>)
    ensures None !in GroupsOf(Classified(cs))
  {
    ClassifiedAll(cs);
  }

  /** Sum of the group sizes over a list of keys. */
  function Total(groups: map<Option<string>, seq<Commit>>, ks: seq<Option<string>>): nat {
    if ks == [] then 0 else |Lookup(groups, ks[0])| + Total(groups, ks[1..])
  }

  predicate Distinct(ks: seq<Option<string>>) {
    forall i, j :: 0 <= i < j < |ks| ==> ks[i] != ks[j]
  }

  function Occurrences(ks: seq<Option<string>>, k: Option<string>): nat {
    if ks == [] then 0 else (if ks[0] == k then 1 else 0) + Occurrences(ks[1..], k)
  }

  lemma {:induction false} OccursOnce(ks: seq<Option<string>>, k: Option<string>)
    requires Distinct(ks) && k in ks
    ensures Occurrences(ks, k) == 1
    decreases |ks|
  {
    if ks[0] == k {
      OccursNot(ks[1..], k);
    } else {
      OccursOnce(ks[1..], k);
    }
  }

  lemma {:induction false} OccursNot(ks: seq<Option<string>>, k: Option<string>)
    requires k !in ks
    ensures Occurrences(ks, k) == 0
    decreases |ks|
  {
    if ks != [] {
      OccursNot(ks[1..], k);
    }
  }

  /** Summing group sizes over keys: the first commit adds one for every
      occurrence of its category among the keys. */
  lemma {:induction false} TotalCons(c: Commit, cs: seq<Commit>, ks: seq<Option<string>>)
    ensures Total(GroupsOf([c] + cs), ks) == Occurrences(ks, Category(c)) + Total(GroupsOf(cs), ks)
    decreases |ks|
  {
    if ks != [] {
      TotalCons(c, cs, ks[1..]);
      var k := ks[0];
      var all := [c] + cs;
      assert all[1..] == cs;
      assert Lookup(GroupsOf(all), k) == Group(all, k) by {
        if k !in Keys(all) {
          GroupAbsent(all, k);
        }
      }
      assert Lookup(GroupsOf(cs), k) == Group(cs, k) by {
        if k !in Keys(cs) {
          GroupAbsent(cs, k);
        }
      }
    }
  }

  /** The group sizes add up to the number of commits, summed over any list
      that names each category once. */
  lemma {:induction false} GroupSizesSum(cs: seq<Commit>, ks: seq<Option<string>>)
    requires Distinct(ks)
    requires forall i :: 0 <= i < |cs| ==> Category(cs[i]) in ks
    ensures Total(GroupsOf(cs), ks) == |cs|
    decreases |cs|
  {
    if cs == [] {
      TotalEmpty(ks);
    } else {
      var c := cs[0];
      assert cs == [c] + cs[1..];
      GroupSizesSum(cs[1..], ks);
      TotalCons(c, cs[1..], ks);
      OccursOnce(ks, Category(c));
    }
  }

  lemma {:induction false} TotalEmpty(ks: seq<Option<string>>)
    ensures Total(GroupsOf([]), ks) == 0
    decreases |ks|
  {
    if ks != [] {
      TotalEmpty(ks[1..]);
    }
  }

  /** One comment entry per commented commit, in commit order: entry `i`
      is the label of the `i`-th commit whose comment is not empty. */
  lemma CommentsCount(cs: seq<Commit>, tool: Tool)
    ensures |Labels(Commented(cs), tool)| == |Commented(cs)|
    ensures forall i :: 0 <= i < |Commented(cs)| ==>
      Commented(cs)[i].comment != "" && Labels(Commented(cs), tool)[i] == Label(Commented(cs)[i], tool)
    ensures forall c :: multiset(Commented(cs))[c] == if c.comment != "" then multiset(cs)[c] else 0
  {
    CommentedAll(cs);
    LabelsIndex(Commented(cs), tool);
  }

  lemma {:induction false} CommentedAll(cs: seq<Commit>)
    ensures forall i :: 0 <= i < |Commented(cs)| ==> Commented(cs)[i].comment != ""
    ensures forall c :: multiset(Commented(cs))[c] == if c.comment != "" then multiset(cs)[c] else 0
    decreases |cs|
  {
    if cs != [] {
      CommentedAll(cs[1..]);
      assert cs == [cs[0]] + cs[1..];
    }
  }

  /** A scoped commit is labelled by its bare category: `feat(ui): x` gives
      `feat`. */
  lemma LabelScoped(c: Commit, cl: Classification)
    requires Categorize(c.subject) == Some(cl) && cl.scope.Some?
    ensures LabelText(c) == cl.category
  {
    CategorizeSound(c.subject, cl);
    var rest :| c.subject == Compose(cl.category, cl.scope, rest);
    var y := cl.scope.value + (")" + (":" + rest));
    assert c.subject == cl.category + (['('] + y);
    WordChars(cl.category);
    BeforeFirstAt(cl.category, '(', y);
  }

  /** A subject without `(` is its own label, so `fix: null pointer` gives
      `fix: null pointer`. */
  lemma LabelWholeSubject(c: Commit)
    requires '(' !in c.subject && IsStripped(c.subject)
    ensures LabelText(c) == c.subject
  {
    ContainsChar(c.subject, '(');
  }
}
