/**
 * The program end to end (src/Uranium.Console/Program.cs:39-135): parse the
 * group file, report the ungrouped repositories, score each group, write
 * the matrix. The inputs the program reads from the network, the clock and
 * the file system are parameters: the group file's lines, the
 * organization's repository listing, the commit fetch for a repository,
 * the decay weight for a commit's age, the string comparison of `OrderBy`
 * and the score formatting.
 */
module Report {
  import opened Wrappers
  import opened Linq
  import opened GroupFile
  import opened Ungrouped
  import opened Aggregation
  import opened Matrix

  /** A group in which at least one fetched commit has a committer. */
  predicate HasCommits(g: Group, fetch: string -> Fetch) {
    Committers(Gathered(g.repos, fetch)) != []
  }

  function WithCommits(fetch: string -> Fetch): Group -> bool {
    g => HasCommits(g, fetch)
  }

  lemma GroupColumnAppend(a: seq<Contribution>, b: seq<Contribution>)
    ensures GroupColumn(a + b) == GroupColumn(a) + GroupColumn(b)
  {
  }

  /** A group has records exactly when it has commits. */
  lemma GroupRecordsEmptyIff(g: Group, fetch: string -> Fetch, weight: int -> real)
    ensures GroupRecords(g, fetch, weight) == [] <==> !HasCommits(g, fetch)
  {
    var cs := Gathered(g.repos, fetch);
    var t := Tally(g.name, cs, weight);
    assert |GroupRecords(g, fetch, weight)| == |multiset(t)| == |t|;
    if Committers(cs) != [] {
      assert Committers(cs)[0] in Distinct(Committers(cs));
    }
  }

  /** Every record of a group carries the group's name. */
  lemma GroupColumnOfGroup(g: Group, fetch: string -> Fetch, weight: int -> real)
    ensures forall k :: 0 <= k < |GroupRecords(g, fetch, weight)| ==> GroupColumn(GroupRecords(g, fetch, weight))[k] == g.name
  {
    var b := GroupRecords(g, fetch, weight);
    GroupRecordsMeaning(g, fetch, weight);
    forall k | 0 <= k < |b| ensures GroupColumn(b)[k] == g.name {
      assert b[k] in b;
    }
  }

  /** The last group's name is not among the groups of the records before it. */
  lemma LastGroupIsNew(groups: seq<Group>, fetch: string -> Fetch, weight: int -> real)
    requires groups != [] && NoDuplicates(Names(groups))
    ensures groups[|groups| - 1].name !in GroupColumn(AllRecords(groups[..|groups| - 1], fetch, weight))
  {
    var n := |groups| - 1;
    var a := AllRecords(groups[..n], fetch, weight);
    LastNameIsNew(groups);
    if groups[n].name in GroupColumn(a) {
      var k :| 0 <= k < |a| && GroupColumn(a)[k] == groups[n].name;
      RecordGroupIsListed(groups[..n], fetch, weight, a[k]);
    }
  }

  /** Adding a group adds its column after the others, if it has commits. */
  lemma ColumnsStep(groups: seq<Group>, fetch: string -> Fetch, weight: int -> real)
    requires groups != [] && NoDuplicates(Names(groups))
    ensures var g := groups[|groups| - 1];
      Columns(AllRecords(groups, fetch, weight)) ==
        Columns(AllRecords(groups[..|groups| - 1], fetch, weight)) + if HasCommits(g, fetch) then [g.name] else []
  {
    var n := |groups| - 1;
    var g := groups[n];
    var a := AllRecords(groups[..n], fetch, weight);
    var b := GroupRecords(g, fetch, weight);
    AllRecordsLast(groups, fetch, weight);
    GroupColumnAppend(a, b);
    LastGroupIsNew(groups, fetch, weight);
    GroupColumnOfGroup(g, fetch, weight);
    DistinctAppendCopies(GroupColumn(a), GroupColumn(b), g.name);
    GroupRecordsEmptyIff(g, fetch, weight);
  }

  lemma NamesFilterLast(groups: seq<Group>, p: Group -> bool)
    requires groups != []
    ensures var g := groups[|groups| - 1];
      Names(Filter(groups, p)) == Names(Filter(groups[..|groups| - 1], p)) + if p(g) then [g.name] else []
  {
    var n := |groups| - 1;
    var g := groups[n];
    var kept := Filter(groups[..n], p);
    var last: seq<Group> := if p(g) then [g] else [];
    FilterLast(groups, p);
    assert Filter(groups, p) == kept + last;
    NamesAppend(kept, last);
    assert Names(last) == if p(g) then [g.name] else [];
  }

  /**
   * The matrix has a column for each group of the group file that has at
   * least one commit with a committer, in group-file order; a group whose
   * repositories all failed or have no such commit gets no column.
   */
  lemma {:induction false} ColumnsAreGroupsWithCommits(groups: seq<Group>, fetch: string -> Fetch, weight: int -> real)
    requires NoDuplicates(Names(groups))
    ensures Columns(AllRecords(groups, fetch, weight)) == Names(Filter(groups, WithCommits(fetch)))
  {
    if groups != [] {
      var n := |groups| - 1;
      assert Names(groups[..n]) == Names(groups)[..n];
      ColumnsAreGroupsWithCommits(groups[..n], fetch, weight);
      ColumnsStep(groups, fetch, weight);
      NamesFilterLast(groups, WithCommits(fetch));
    }
  }

  /** The matrix has a row for each login that committed to a fetched repository of some group. */
  lemma RowsAreCommitters(groups: seq<Group>, fetch: string -> Fetch, weight: int -> real, login: string)
    ensures login in Rows(AllRecords(groups, fetch, weight)) <==>
      exists i :: 0 <= i < |groups| && login in Committers(Gathered(groups[i].repos, fetch))
  {
    var all := AllRecords(groups, fetch, weight);
    RowsAreLogins(all);
    AllRecordsMembership(groups, fetch, weight);
    if login in Rows(all) {
      var r :| r in all && r.login == login;
      var i :| 0 <= i < |groups| && r in GroupRecords(groups[i], fetch, weight);
      GroupRecordsMeaning(groups[i], fetch, weight);
    }
    if exists i :: 0 <= i < |groups| && login in Committers(Gathered(groups[i].repos, fetch)) {
      var i :| 0 <= i < |groups| && login in Committers(Gathered(groups[i].repos, fetch));
      var g := groups[i];
      GroupRecordsMeaning(g, fetch, weight);
      var r := Contribution(g.name, login, ScoreOf(Gathered(g.repos, fetch), login, weight));
      assert r in GroupRecords(g, fetch, weight);
      assert r in all;
    }
  }

  /** A committer of a group has the record of their score in the global list. */
  lemma RecordOfCommitter(groups: seq<Group>, fetch: string -> Fetch, weight: int -> real, i: nat, login: string)
    requires i < |groups|
    requires login in Committers(Gathered(groups[i].repos, fetch))
    ensures Contribution(groups[i].name, login, ScoreOf(Gathered(groups[i].repos, fetch), login, weight))
      in AllRecords(groups, fetch, weight)
  {
    var g := groups[i];
    GroupRecordsMeaning(g, fetch, weight);
    assert Contribution(g.name, login, ScoreOf(Gathered(g.repos, fetch), login, weight)) in GroupRecords(g, fetch, weight);
    AllRecordsMembership(groups, fetch, weight);
  }

  /** A record of the global list is a record of the one group with its name. */
  lemma RecordBelongsToItsGroup(groups: seq<Group>, fetch: string -> Fetch, weight: int -> real, i: nat, r: Contribution)
    requires NoDuplicates(Names(groups)) && i < |groups|
    requires r in AllRecords(groups, fetch, weight) && r.group == groups[i].name
    ensures r in GroupRecords(groups[i], fetch, weight)
  {
    var j := GroupOfRecord(groups, fetch, weight, r);
    GroupRecordsCarryName(groups[j], fetch, weight);
    assert Names(groups)[j] == Names(groups)[i];
    assert j == i;
  }

  /** A login without commits in a group has no record for that group. */
  lemma NoRecordWithoutCommits(groups: seq<Group>, fetch: string -> Fetch, weight: int -> real, i: nat, login: string)
    requires NoDuplicates(Names(groups)) && i < |groups|
    requires login !in Committers(Gathered(groups[i].repos, fetch))
    ensures forall r :: r in AllRecords(groups, fetch, weight) ==> !IsAt(r, groups[i].name, login)
  {
    forall r | r in AllRecords(groups, fetch, weight) ensures !IsAt(r, groups[i].name, login) {
      if IsAt(r, groups[i].name, login) {
        RecordBelongsToItsGroup(groups, fetch, weight, i, r);
        GroupRecordsMeaning(groups[i], fetch, weight);
      }
    }
  }

  /**
   * A cell of the matrix: the login's score in the group, summed over the
   * group's fetched repositories, or "0" when the login has no commit there.
   */
  lemma MatrixCell(groups: seq<Group>, fetch: string -> Fetch, weight: int -> real, format: real -> string, i: nat, login: string)
    requires NoDuplicates(Names(groups)) && i < |groups|
    ensures var cs := Gathered(groups[i].repos, fetch);
      CellText(SingleOrDefault(AllRecords(groups, fetch, weight), groups[i].name, login), format) ==
        if login in Committers(cs) then format(ScoreOf(cs, login, weight)) else "0"
  {
    var all := AllRecords(groups, fetch, weight);
    AllRecordsUniquePairs(groups, fetch, weight);
    CellMeaning(all, groups[i].name, login, format);
    if login in Committers(Gathered(groups[i].repos, fetch)) {
      RecordOfCommitter(groups, fetch, weight, i, login);
    } else {
      NoRecordWithoutCommits(groups, fetch, weight, i, login);
    }
  }

  /** What the program produces: the diagnostics and the matrix file's lines. */
  datatype Report = Report(ungrouped: seq<Repo>, fetchFailures: seq<FetchFailure>, matrix: seq<string>)

  /** A line of the group file without a second token: the program stops with an exception. */
  datatype RunError = MalformedGroupLine(line: nat)

  /**
   * One run. The lookup of a matrix cell never fails, because the group
   * names are distinct dictionary keys and each group's logins are distinct
   * dictionary keys; the run fails only on a malformed group-file line,
   * before anything is reported.
   */
  method Run(lines: seq<string>, repos: seq<Repo>, fetch: string -> Fetch, weight: int -> real,
             precedes: (string, string) -> bool, format: real -> string)
    returns (result: Result<Report, RunError>)
    ensures result.Failure? <==> ParseGroups(lines).Failure?
    ensures result.Failure? ==> result.error == MalformedGroupLine(ParseGroups(lines).error)
    ensures result.Success? ==>
      var groups := ParseGroups(lines).value;
      result.value == Report(
        UngroupedRepos(repos, groups, precedes),
        AllFailures(groups, fetch),
        MatrixLines(AllRecords(groups, fetch, weight), format))
  {
    var parsed := ParseGroups(lines);
    if parsed.Failure? {
      return Failure(MalformedGroupLine(parsed.error));
    }
    var groups := parsed.value;
    var ungrouped := UngroupedRepos(repos, groups, precedes);
    var all, failures := AggregateAll(groups, fetch, weight);
    AllRecordsUniquePairs(groups, fetch, weight);
    var written := WriteMatrix(all, format);
    result := Success(Report(ungrouped, failures, written.value));
  }
}
