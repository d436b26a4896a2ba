/**
 * The group file (src/Uranium.Console/Program.cs:39-44): each line is
 * trimmed; a line starting with `//` is a comment; any other line is split
 * on white space and puts its first token (a repository) into the group
 * named by its second token. Groups are kept in the order in which their
 * names first appear, each repository list in line order.
 */
module GroupFile {
  import opened Wrappers
  import opened Linq
  import opened Text

  datatype Group = Group(name: string, repos: seq<string>)

  /** A non-comment line: repository `repo` belongs to group `group`. */
  datatype Assignment = Assignment(repo: string, group: string)

  /**
   * What one line of the file says. `Malformed` is a non-comment line with
   * fewer than two tokens, where the program's `tokens[1]` faults.
   */
  datatype Line = Comment | Assigns(assignment: Assignment) | Malformed

  function ParseLine(line: string): Line {
    var t := Trim(line);
    if StartsWith(t, "//") then Comment
    else
      var tokens := SplitOnWhiteSpace(t);
      if |tokens| < 2 then Malformed else Assigns(Assignment(tokens[0], tokens[1]))
  }

  /** The repository a line assigns is a non-empty token; it and the group name hold no white space. */
  lemma ParseLineTokens(line: string)
    ensures ParseLine(line).Assigns? ==> ParseLine(line).assignment.repo != []
    ensures ParseLine(line).Assigns? ==>
      NoneWhere(ParseLine(line).assignment.repo, IsWhiteSpace) && NoneWhere(ParseLine(line).assignment.group, IsWhiteSpace)
  {
    var t := Trim(line);
    SplitPiecesClean(t, IsWhiteSpace);
    SplitFirst(t, IsWhiteSpace);
  }

  /**
   * A non-comment line is malformed exactly when, once trimmed, it holds no
   * white space: a single word, or nothing at all.
   */
  lemma MalformedIff(line: string)
    ensures ParseLine(line).Malformed? <==> !StartsWith(Trim(line), "//") && NoneWhere(Trim(line), IsWhiteSpace)
  {
    SplitOne(Trim(line), IsWhiteSpace);
  }

  /** A blank or all-white-space line is malformed, not skipped. */
  lemma BlankLineIsMalformed(line: string)
    requires forall i :: 0 <= i < |line| ==> IsWhiteSpace(line[i])
    ensures ParseLine(line) == Malformed
  {
    TrimKeepsCore(line, |line|, |line|);
  }

  /** How `ParseLine` reads a line whose trimmed form and tokens are known. */
  lemma ParseLineOf(line: string, t: string, tokens: seq<string>)
    requires Trim(line) == t && !StartsWith(t, "//")
    requires SplitOnWhiteSpace(t) == tokens && |tokens| >= 2
    ensures ParseLine(line) == Assigns(Assignment(tokens[0], tokens[1]))
  {
  }

  /** Trimming removes white-space margins around a core that starts and ends with non-white-space. */
  lemma TrimMargins(pre: string, core: string, post: string)
    requires forall i :: 0 <= i < |pre| ==> IsWhiteSpace(pre[i])
    requires forall i :: 0 <= i < |post| ==> IsWhiteSpace(post[i])
    requires core != [] && !IsWhiteSpace(core[0]) && !IsWhiteSpace(core[|core| - 1])
    ensures Trim(pre + core + post) == core
  {
    var line := pre + core + post;
    var i, j := |pre|, |pre| + |core|;
    assert line[i..j] == core;
    assert line[i] == core[0] && line[j - 1] == core[|core| - 1];
    assert forall k :: 0 <= k < i ==> line[k] == pre[k];
    assert forall k :: j <= k < |line| ==> line[k] == post[k - j];
    TrimKeepsCore(line, i, j);
  }

  /** A word that does not start with `//`, followed by white space, does not either. */
  lemma KeepsNonCommentStart(word: string, rest: string)
    requires word != [] && !StartsWith(word, "//")
    requires rest != [] && IsWhiteSpace(rest[0])
    ensures !StartsWith(word + rest, "//")
  {
    var s := word + rest;
    if |word| >= 2 {
      assert s[..2] == word[..2];
    } else {
      assert s[1] == rest[0];
    }
  }

  /** Two words joined by two spaces split into the first word, an empty token and the second word. */
  lemma SplitDoubleSpace(repo: string, group: string)
    requires NoneWhere(repo, IsWhiteSpace) && NoneWhere(group, IsWhiteSpace)
    ensures SplitOnWhiteSpace(repo + "  " + group) == [repo, "", group]
  {
    var tokens := [repo, "", group];
    assert Join(tokens, ' ') == repo + "  " + group by {
      assert tokens[..2] == [repo, ""];
      assert [repo, ""][..1] == [repo];
      assert Join([repo, ""], ' ') == repo + " ";
      assert repo + " " + " " + group == repo + "  " + group;
    }
    SplitJoin(tokens, ' ', IsWhiteSpace);
  }

  /** Trimming `pre + repo + [sep] + group + rest` drops the white space `pre` and the trailing white space of `rest`. */
  lemma TrimAssignmentLine(pre: string, repo: string, sep: char, group: string, rest: string)
    requires forall i :: 0 <= i < |pre| ==> IsWhiteSpace(pre[i])
    requires repo != [] && group != [] && !IsWhiteSpace(repo[0]) && !IsWhiteSpace(group[|group| - 1])
    ensures Trim(pre + repo + [sep] + group + rest) == repo + [sep] + group + TrimEnd(rest)
  {
    var kept := TrimEnd(rest);
    var tail := rest[|kept|..];
    var core := repo + [sep] + group + kept;
    assert rest == kept + tail;
    assert forall i :: 0 <= i < |tail| ==> IsWhiteSpace(tail[i]) by {
      forall i | 0 <= i < |tail| ensures IsWhiteSpace(tail[i]) {
        assert tail[i] == rest[|kept| + i];
      }
    }
    assert core[0] == repo[0];
    assert core[|core| - 1] == if kept == [] then group[|group| - 1] else kept[|kept| - 1];
    ConcatSplitLast(pre, repo, [sep], group, kept, tail);
    TrimMargins(pre, core, tail);
  }

  /** A token followed by nothing, or by white space and anything, is the first piece of the split. */
  lemma SplitLeadingToken(word: string, rest: string)
    requires NoneWhere(word, IsWhiteSpace) && (rest != [] ==> IsWhiteSpace(rest[0]))
    ensures SplitOnWhiteSpace(word + rest)[0] == word
  {
    SplitNone(word, IsWhiteSpace);
    if rest == [] {
      assert word + rest == word;
    } else {
      assert word + rest == word + [rest[0]] + rest[1..];
      SplitAtSeparator(word, rest[0], rest[1..], IsWhiteSpace);
    }
  }

  /** Two tokens split at a white-space character, followed by white space and anything, lead the split. */
  lemma SplitAssignmentCore(repo: string, sep: char, group: string, kept: string)
    requires IsWhiteSpace(sep) && (kept != [] ==> IsWhiteSpace(kept[0]))
    requires NoneWhere(repo, IsWhiteSpace) && NoneWhere(group, IsWhiteSpace)
    ensures var tokens := SplitOnWhiteSpace(repo + [sep] + group + kept);
      |tokens| >= 2 && tokens[0] == repo && tokens[1] == group
  {
    assert repo + [sep] + group + kept == repo + [sep] + (group + kept);
    SplitAtSeparator(repo, sep, group + kept, IsWhiteSpace);
    SplitNone(repo, IsWhiteSpace);
    SplitLeadingToken(group, kept);
  }

  /**
   * A line holding, after white space, a repository token, one white-space
   * character, a group token and anything that starts with white space
   * assigns that repository to that group: the further tokens are ignored.
   */
  lemma ParseAssignmentLine(pre: string, repo: string, sep: char, group: string, rest: string)
    requires forall i :: 0 <= i < |pre| ==> IsWhiteSpace(pre[i])
    requires IsWhiteSpace(sep) && (rest != [] ==> IsWhiteSpace(rest[0]))
    requires repo != [] && group != [] && !StartsWith(repo, "//")
    requires NoneWhere(repo, IsWhiteSpace) && NoneWhere(group, IsWhiteSpace)
    ensures ParseLine(pre + repo + [sep] + group + rest) == Assigns(Assignment(repo, group))
  {
    var kept := TrimEnd(rest);
    var core := repo + [sep] + group + kept;
    TrimAssignmentLine(pre, repo, sep, group, rest);
    ConcatTail(repo, [sep], group, kept);
    KeepsNonCommentStart(repo, [sep] + group + kept);
    assert kept != [] ==> kept[0] == rest[0];
    SplitAssignmentCore(repo, sep, group, kept);
    ParseLineOf(pre + repo + [sep] + group + rest, core, SplitOnWhiteSpace(core));
  }

  /**
   * Reading back a line written as `<repo> <group>`, with any white space
   * around it, gives that assignment.
   */
  lemma ParseFormattedLine(pre: string, repo: string, group: string, post: string)
    requires forall i :: 0 <= i < |pre| ==> IsWhiteSpace(pre[i])
    requires forall i :: 0 <= i < |post| ==> IsWhiteSpace(post[i])
    requires repo != [] && group != [] && !StartsWith(repo, "//")
    requires NoneWhere(repo, IsWhiteSpace) && NoneWhere(group, IsWhiteSpace)
    ensures ParseLine(pre + repo + " " + group + post) == Assigns(Assignment(repo, group))
  {
    assert " " == [' '];
    ParseAssignmentLine(pre, repo, ' ', group, post);
  }

  /** Two words joined by two spaces: trimming keeps the line, and it is not a comment. */
  lemma DoubleSpacedLineKept(repo: string, group: string)
    requires repo != [] && group != [] && !StartsWith(repo, "//")
    requires NoneWhere(repo, IsWhiteSpace) && NoneWhere(group, IsWhiteSpace)
    ensures Trim(repo + "  " + group) == repo + "  " + group
    ensures !StartsWith(repo + "  " + group, "//")
  {
    var t := repo + "  " + group;
    assert Trim(t) == t by {
      assert t[0] == repo[0] && t[|t| - 1] == group[|group| - 1];
      TrimMargins("", t, "");
      assert "" + t + "" == t;
    }
    KeepsNonCommentStart(repo, "  " + group);
    assert repo + ("  " + group) == t;
  }

  /**
   * Two spaces between the tokens make an empty second token: the
   * repository is put into a group whose name is empty.
   */
  lemma DoubleSpaceGivesEmptyGroupName(repo: string, group: string)
    requires repo != [] && group != [] && !StartsWith(repo, "//")
    requires NoneWhere(repo, IsWhiteSpace) && NoneWhere(group, IsWhiteSpace)
    ensures ParseLine(repo + "  " + group) == Assigns(Assignment(repo, ""))
  {
    var t := repo + "  " + group;
    DoubleSpacedLineKept(repo, group);
    SplitDoubleSpace(repo, group);
    ParseLineOf(t, t, [repo, "", group]);
  }

  /** What each line of the file says, line by line. */
  function Classify(lines: seq<string>): seq<Line> {
    seq(|lines|, k requires 0 <= k < |lines| => ParseLine(lines[k]))
  }

  /**
   * The assignments of the classified lines in order, or the index of the
   * first malformed line (the program stops with an exception there).
   */
  function Assignments(kinds: seq<Line>): Result<seq<Assignment>, nat> {
    if kinds == [] then Success([])
    else
      match Assignments(kinds[..|kinds| - 1])
      case Failure(i) => Failure(i)
      case Success(pairs) =>
        match kinds[|kinds| - 1]
        case Malformed => Failure(|kinds| - 1)
        case Comment => Success(pairs)
        case Assigns(a) => Success(pairs + [a])
  }

  /** The lines succeed exactly when none is malformed; a failure names the first malformed line. */
  lemma {:induction false} AssignmentsMeaning(kinds: seq<Line>)
    ensures var r := Assignments(kinds);
      && (r.Success? <==> forall k :: 0 <= k < |kinds| ==> !kinds[k].Malformed?)
      && (r.Failure? ==> r.error < |kinds| && kinds[r.error].Malformed?)
      && (r.Failure? ==> forall k :: 0 <= k < r.error ==> !kinds[k].Malformed?)
  {
    if kinds != [] {
      var init := kinds[..|kinds| - 1];
      AssignmentsMeaning(init);
      assert forall k :: 0 <= k < |init| ==> init[k] == kinds[k];
    }
  }

  /**
   * A comment line, wherever it stands, adds no assignment; only the index
   * of a later malformed line moves by one.
   */
  lemma {:induction false} CommentContributesNothing(before: seq<Line>, after: seq<Line>)
    ensures Assignments(before + [Comment] + after) ==
      match Assignments(before + after)
      case Success(pairs) => Success(pairs)
      case Failure(i) => Failure(if i < |before| then i else i + 1)
    decreases |after|
  {
    var whole := before + [Comment] + after;
    if after == [] {
      assert whole[..|whole| - 1] == before;
      assert before + after == before;
      AssignmentsMeaning(before);
    } else {
      var init := after[..|after| - 1];
      CommentContributesNothing(before, init);
      assert whole[..|whole| - 1] == before + [Comment] + init;
      assert (before + after)[..|before + after| - 1] == before + init;
      assert whole[|whole| - 1] == (before + after)[|before + after| - 1];
    }
  }

  /** The names of the groups, one by one. */
  function Names(groups: seq<Group>): seq<string> {
    seq(|groups|, i requires 0 <= i < |groups| => groups[i].name)
  }

  lemma NamesAppend(a: seq<Group>, b: seq<Group>)
    ensures Names(a + b) == Names(a) + Names(b)
  {
  }

  /** With distinct names, the last group's name is not among the names before it. */
  lemma LastNameIsNew(groups: seq<Group>)
    requires groups != [] && NoDuplicates(Names(groups))
    ensures groups[|groups| - 1].name !in Names(groups[..|groups| - 1])
  {
    var n := |groups| - 1;
    forall j | 0 <= j < n ensures Names(groups[..n])[j] != groups[n].name {
      assert Names(groups[..n])[j] == Names(groups)[j] && Names(groups)[n] == groups[n].name;
    }
  }

  /** The group tokens of the assignments, in order. */
  function GroupTokens(pairs: seq<Assignment>): seq<string> {
    seq(|pairs|, i requires 0 <= i < |pairs| => pairs[i].group)
  }

  /** The repositories assigned to group `g`, in order. */
  function ReposOf(pairs: seq<Assignment>, g: string): seq<string> {
    if pairs == [] then []
    else
      var a := pairs[|pairs| - 1];
      ReposOf(pairs[..|pairs| - 1], g) + (if a.group == g then [a.repo] else [])
  }

  /** Files one assignment: appended to its group, or a new group at the end. */
  function AddToGroup(groups: seq<Group>, a: Assignment): (r: seq<Group>)
    requires NoDuplicates(Names(groups))
    ensures |r| == if a.group in Names(groups) then |groups| else |groups| + 1
    ensures forall i :: 0 <= i < |groups| ==>
      r[i] == if groups[i].name == a.group then Group(a.group, groups[i].repos + [a.repo]) else groups[i]
    ensures a.group !in Names(groups) ==> r[|groups|] == Group(a.group, [a.repo])
  {
    if groups == [] then [Group(a.group, [a.repo])]
    else if groups[0].name == a.group then
      assert forall i :: 0 <= i < |groups| ==> Names(groups)[i] == groups[i].name;
      [Group(a.group, groups[0].repos + [a.repo])] + groups[1..]
    else
      assert Names(groups) == [groups[0].name] + Names(groups[1..]) && Names(groups[1..]) == Names(groups)[1..];
      [groups[0]] + AddToGroup(groups[1..], a)
  }

  /** `GroupBy(tokens[1], tokens[0])` followed by `ToDictionary`. */
  function GroupByName(pairs: seq<Assignment>): (r: seq<Group>)
    ensures NoDuplicates(Names(r))
  {
    if pairs == [] then []
    else
      var gs := GroupByName(pairs[..|pairs| - 1]);
      var r := AddToGroup(gs, pairs[|pairs| - 1]);
      AddToGroupNames(gs, pairs[|pairs| - 1]);
      r
  }

  /** Grouping keeps the group names in the order of their first appearance. */
  lemma {:induction false} GroupNamesInFirstAppearanceOrder(pairs: seq<Assignment>)
    ensures Names(GroupByName(pairs)) == Distinct(GroupTokens(pairs))
  {
    if pairs != [] {
      var init := pairs[..|pairs| - 1];
      var a := pairs[|pairs| - 1];
      GroupNamesInFirstAppearanceOrder(init);
      var gs := GroupByName(init);
      assert GroupTokens(pairs)[..|pairs| - 1] == GroupTokens(init);
      AddToGroupNames(gs, a);
    }
  }

  lemma AddToGroupNames(groups: seq<Group>, a: Assignment)
    requires NoDuplicates(Names(groups))
    ensures Names(AddToGroup(groups, a)) ==
      if a.group in Names(groups) then Names(groups) else Names(groups) + [a.group]
  {
    var r := AddToGroup(groups, a);
    var expected := if a.group in Names(groups) then Names(groups) else Names(groups) + [a.group];
    assert |Names(r)| == |expected|;
    forall i | 0 <= i < |r| ensures Names(r)[i] == expected[i] {
      if i < |groups| {
        assert r[i].name == groups[i].name;
      }
    }
  }

  /** Each group holds exactly the repositories assigned to it, in line order. */
  lemma {:induction false} GroupsCollectTheirRepos(pairs: seq<Assignment>)
    ensures forall i :: 0 <= i < |GroupByName(pairs)| ==>
      GroupByName(pairs)[i].repos == ReposOf(pairs, GroupByName(pairs)[i].name)
  {
    if pairs != [] {
      var init := pairs[..|pairs| - 1];
      var a := pairs[|pairs| - 1];
      GroupsCollectTheirRepos(init);
      var gs := GroupByName(init);
      var r := GroupByName(pairs);
      forall i | 0 <= i < |r| ensures r[i].repos == ReposOf(pairs, r[i].name) {
        var n := r[i].name;
        assert ReposOf(pairs, n) == ReposOf(init, n) + (if a.group == n then [a.repo] else []);
        if i < |gs| {
          assert r[i] == if gs[i].name == a.group then Group(a.group, gs[i].repos + [a.repo]) else gs[i];
        } else {
          assert a.group !in Names(gs) && r[i] == Group(a.group, [a.repo]);
          assert a.group !in GroupTokens(init) by {
            GroupNamesInFirstAppearanceOrder(init);
          }
          ReposOfAbsent(init, a.group);
        }
      }
    }
  }

  lemma {:induction false} ReposOfAbsent(pairs: seq<Assignment>, g: string)
    requires g !in GroupTokens(pairs)
    ensures ReposOf(pairs, g) == []
  {
    if pairs != [] {
      assert GroupTokens(pairs) == GroupTokens(pairs[..|pairs| - 1]) + [pairs[|pairs| - 1].group];
      ReposOfAbsent(pairs[..|pairs| - 1], g);
    }
  }

  /** The whole group file: the groups in order, or the first malformed line. */
  function ParseGroups(lines: seq<string>): (r: Result<seq<Group>, nat>)
    ensures r.Success? ==> NoDuplicates(Names(r.value))
    ensures r.Success? <==> forall k :: 0 <= k < |lines| ==> !ParseLine(lines[k]).Malformed?
    ensures r.Failure? ==> r.error < |lines| && ParseLine(lines[r.error]).Malformed?
    ensures r.Failure? ==> forall k :: 0 <= k < r.error ==> !ParseLine(lines[k]).Malformed?
  {
    var kinds := Classify(lines);
    assert forall k :: 0 <= k < |lines| ==> kinds[k] == ParseLine(lines[k]);
    AssignmentsMeaning(kinds);
    match Assignments(Classify(lines))
    case Failure(i) => Failure(i)
    case Success(pairs) => Success(GroupByName(pairs))
  }

  /** Every group name and every repository name is a white-space-free token. */
  predicate Tokens(groups: seq<Group>) {
    forall i :: 0 <= i < |groups| ==>
      && NoneWhere(groups[i].name, IsWhiteSpace)
      && forall k :: 0 <= k < |groups[i].repos| ==> NoneWhere(groups[i].repos[k], IsWhiteSpace)
  }

  predicate TokenAssignments(pairs: seq<Assignment>) {
    forall k :: 0 <= k < |pairs| ==> NoneWhere(pairs[k].repo, IsWhiteSpace) && NoneWhere(pairs[k].group, IsWhiteSpace)
  }

  /** Adding a white-space-free assignment keeps every name a token. */
  lemma AddToGroupTokens(gs: seq<Group>, a: Assignment)
    requires NoDuplicates(Names(gs)) && Tokens(gs)
    requires NoneWhere(a.repo, IsWhiteSpace) && NoneWhere(a.group, IsWhiteSpace)
    ensures Tokens(AddToGroup(gs, a))
  {
    var r := AddToGroup(gs, a);
    forall i | 0 <= i < |r|
      ensures NoneWhere(r[i].name, IsWhiteSpace)
      ensures forall k :: 0 <= k < |r[i].repos| ==> NoneWhere(r[i].repos[k], IsWhiteSpace)
    {
      if i < |gs| && gs[i].name == a.group {
        assert r[i].repos == gs[i].repos + [a.repo];
      }
    }
  }

  lemma {:induction false} GroupByNameTokens(pairs: seq<Assignment>)
    requires TokenAssignments(pairs)
    ensures Tokens(GroupByName(pairs))
  {
    if pairs != [] {
      var n := |pairs| - 1;
      assert TokenAssignments(pairs[..n]) by {
        forall k | 0 <= k < n ensures pairs[..n][k] == pairs[k] { }
      }
      GroupByNameTokens(pairs[..n]);
      assert NoneWhere(pairs[n].repo, IsWhiteSpace) && NoneWhere(pairs[n].group, IsWhiteSpace);
      AddToGroupTokens(GroupByName(pairs[..n]), pairs[n]);
    }
  }

  lemma {:induction false} AssignmentsAreTokens(kinds: seq<Line>)
    requires Assignments(kinds).Success?
    requires forall k :: 0 <= k < |kinds| ==> kinds[k].Assigns? ==> TokenAssignments([kinds[k].assignment])
    ensures TokenAssignments(Assignments(kinds).value)
  {
    if kinds != [] {
      AssignmentsAreTokens(kinds[..|kinds| - 1]);
    }
  }

  /** Group and repository names read from the file never hold white space (so never a tab). */
  lemma ParsedNamesAreTokens(lines: seq<string>)
    requires ParseGroups(lines).Success?
    ensures Tokens(ParseGroups(lines).value)
  {
    var kinds := Classify(lines);
    forall k | 0 <= k < |kinds| && kinds[k].Assigns? ensures TokenAssignments([kinds[k].assignment]) {
      ParseLineTokens(lines[k]);
    }
    AssignmentsAreTokens(kinds);
    GroupByNameTokens(Assignments(kinds).value);
  }
}
