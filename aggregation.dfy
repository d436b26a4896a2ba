/**
 * The per-group contribution scores (src/Uranium.Console/Program.cs:57-108).
 * For each group, in file order, the commits of each of its repositories are
 * fetched; a failed fetch is reported and the repository skipped; every
 * commit with a committer adds its decayed weight to that login's running
 * score. The group's scores, highest first, are appended to one global list
 * of (group, login, score) records.
 *
 * The decay weight of a commit (`1 / 2^(2 * days / 365.25)` in the program)
 * is the parameter `weight`, a function of the commit's age in days.
 */
module Aggregation {
  import opened Wrappers
  import opened Linq
  import opened GroupFile

  /** A commit: the committer's login, absent when none is linked, and its age in days. */
  datatype Commit = Commit(committer: Option<string>, age: int)

  /** The outcome of fetching one repository's commits. */
  datatype Fetch = Fetched(commits: seq<Commit>) | FetchFailed(message: string)

  /** The diagnostic for a repository whose commits could not be fetched. */
  datatype FetchFailure = FetchFailure(repo: string, message: string)

  /** One record of the global list (the program's `Contribution` class). */
  datatype Contribution = Contribution(group: string, login: string, score: real)

  function CommitsOf(f: Fetch): seq<Commit> {
    match f
    case Fetched(commits) => commits
    case FetchFailed(_) => []
  }

  /** The commits of the repositories fetched successfully, repository by repository. */
  function Gathered(repos: seq<string>, fetch: string -> Fetch): seq<Commit> {
    if repos == [] then []
    else Gathered(repos[..|repos| - 1], fetch) + CommitsOf(fetch(repos[|repos| - 1]))
  }

  /** The repositories whose fetch failed, in order, with the error message. */
  function FailuresOf(repos: seq<string>, fetch: string -> Fetch): seq<FetchFailure> {
    if repos == [] then []
    else
      var repo := repos[|repos| - 1];
      FailuresOf(repos[..|repos| - 1], fetch) +
        match fetch(repo)
        case FetchFailed(message) => [FetchFailure(repo, message)]
        case Fetched(_) => []
  }

  /** The logins of the commits that have a committer, commit by commit. */
  function Committers(cs: seq<Commit>): seq<string> {
    if cs == [] then []
    else
      var c := cs[|cs| - 1];
      Committers(cs[..|cs| - 1]) + if c.committer.Some? then [c.committer.value] else []
  }

  /** The sum of the weights of the commits by `login`. */
  function ScoreOf(cs: seq<Commit>, login: string, weight: int -> real): real {
    if cs == [] then 0.0
    else
      var c := cs[|cs| - 1];
      ScoreOf(cs[..|cs| - 1], login, weight) + if c.committer == Some(login) then weight(c.age) else 0.0
  }

  /** The sum of the weights of all commits that have a committer. */
  function TotalWeight(cs: seq<Commit>, weight: int -> real): real {
    if cs == [] then 0.0
    else
      var c := cs[|cs| - 1];
      TotalWeight(cs[..|cs| - 1], weight) + if c.committer.Some? then weight(c.age) else 0.0
  }

  /** One record per login of `logins`, scored over `cs`. */
  function TallyOf(group: string, logins: seq<string>, cs: seq<Commit>, weight: int -> real): seq<Contribution> {
    seq(|logins|, k requires 0 <= k < |logins| => Contribution(group, logins[k], ScoreOf(cs, logins[k], weight)))
  }

  /**
   * The login-to-score dictionary of a group, enumerated: each committer
   * once, in the order of their first commit.
   */
  function Tally(group: string, cs: seq<Commit>, weight: int -> real): seq<Contribution> {
    TallyOf(group, Distinct(Committers(cs)), cs, weight)
  }

  /** `OrderByDescending(contribution => contribution.Value)`: higher scores first. */
  predicate ScoreAtLeast(a: Contribution, b: Contribution) {
    a.score >= b.score
  }

  /** The records one group appends to the global list. */
  function GroupRecords(g: Group, fetch: string -> Fetch, weight: int -> real): seq<Contribution> {
    SortBy(Tally(g.name, Gathered(g.repos, fetch), weight), ScoreAtLeast)
  }

  /** The global list: the records of each group after those of the groups before it. */
  function AllRecords(groups: seq<Group>, fetch: string -> Fetch, weight: int -> real): seq<Contribution> {
    FlatMap(groups, g => GroupRecords(g, fetch, weight))
  }

  /** Every fetch failure of every group, in processing order. */
  function AllFailures(groups: seq<Group>, fetch: string -> Fetch): seq<FetchFailure> {
    FlatMap(groups, (g: Group) => FailuresOf(g.repos, fetch))
  }

  /** No two records share both group and login. */
  predicate UniquePairs(rs: seq<Contribution>) {
    forall i, j :: 0 <= i < j < |rs| ==> rs[i].group != rs[j].group || rs[i].login != rs[j].login
  }

  lemma {:induction false} ScoreOfAbsent(cs: seq<Commit>, login: string, weight: int -> real)
    requires login !in Committers(cs)
    ensures ScoreOf(cs, login, weight) == 0.0
  {
    if cs != [] {
      ScoreOfAbsent(cs[..|cs| - 1], login, weight);
    }
  }

  /** Adding one commit at the end: how committers and scores change. */
  lemma CommitStep(cs: seq<Commit>, c: Commit, weight: int -> real)
    ensures Committers(cs + [c]) == Committers(cs) + if c.committer.Some? then [c.committer.value] else []
    ensures forall l ::
      ScoreOf(cs + [c], l, weight) == ScoreOf(cs, l, weight) + (if c.committer == Some(l) then weight(c.age) else 0.0)
  {
    assert (cs + [c])[..|cs|] == cs;
  }

  lemma GatheredStep(repos: seq<string>, i: nat, fetch: string -> Fetch)
    requires i < |repos|
    ensures Gathered(repos[..i + 1], fetch) == Gathered(repos[..i], fetch) + CommitsOf(fetch(repos[i]))
    ensures FailuresOf(repos[..i + 1], fetch) == FailuresOf(repos[..i], fetch) +
      match fetch(repos[i])
      case FetchFailed(message) => [FetchFailure(repos[i], message)]
      case Fetched(_) => []
  {
    assert repos[..i + 1][..i] == repos[..i];
  }

  /** The dictionary `scores`, with its keys in insertion order `order`, holds the scores over `cs`. */
  ghost predicate Tallied(order: seq<string>, scores: map<string, real>, cs: seq<Commit>, weight: int -> real) {
    && order == Distinct(Committers(cs))
    && scores == ScoresOver(order, cs, weight)
  }

  /** Each login of `logins` mapped to its score over `cs`. */
  ghost function ScoresOver(logins: seq<string>, cs: seq<Commit>, weight: int -> real): map<string, real> {
    map l | l in logins :: ScoreOf(cs, l, weight)
  }

  lemma NewLoginOrder(order: seq<string>, done: seq<Commit>, c: Commit, weight: int -> real)
    requires order == Distinct(Committers(done))
    requires c.committer.Some? && c.committer.value !in order
    ensures order + [c.committer.value] == Distinct(Committers(done + [c]))
  {
    CommitStep(done, c, weight);
    DistinctStep(Committers(done), c.committer.value);
  }

  lemma NewLoginScores(order: seq<string>, scores: map<string, real>, done: seq<Commit>, c: Commit, weight: int -> real)
    requires scores == ScoresOver(order, done, weight)
    requires c.committer.Some? && c.committer.value !in Committers(done)
    ensures scores[c.committer.value := weight(c.age)] == ScoresOver(order + [c.committer.value], done + [c], weight)
  {
    var login := c.committer.value;
    var updated := scores[login := weight(c.age)];
    CommitStep(done, c, weight);
    ScoreOfAbsent(done, login, weight);
    forall l | l in order + [login] ensures updated[l] == ScoreOf(done + [c], l, weight) {
    }
  }

  /** A commit by a login not yet in the dictionary adds the login, last, with the commit's weight. */
  lemma TalliedNewLogin(order: seq<string>, scores: map<string, real>, done: seq<Commit>, c: Commit, weight: int -> real)
    requires Tallied(order, scores, done, weight)
    requires c.committer.Some? && c.committer.value !in scores
    ensures Tallied(order + [c.committer.value], scores[c.committer.value := weight(c.age)], done + [c], weight)
  {
    assert c.committer.value !in order;
    NewLoginOrder(order, done, c, weight);
    NewLoginScores(order, scores, done, c, weight);
  }

  lemma KnownLoginOrder(order: seq<string>, done: seq<Commit>, c: Commit, weight: int -> real)
    requires order == Distinct(Committers(done))
    requires c.committer.Some? && c.committer.value in order
    ensures order == Distinct(Committers(done + [c]))
  {
    CommitStep(done, c, weight);
    DistinctStep(Committers(done), c.committer.value);
  }

  lemma KnownLoginScores(order: seq<string>, scores: map<string, real>, done: seq<Commit>, c: Commit, weight: int -> real)
    requires scores == ScoresOver(order, done, weight)
    requires c.committer.Some? && c.committer.value in scores
    ensures var login := c.committer.value;
      scores[login := scores[login] + weight(c.age)] == ScoresOver(order, done + [c], weight)
  {
    var login := c.committer.value;
    var updated := scores[login := scores[login] + weight(c.age)];
    CommitStep(done, c, weight);
    forall l | l in order ensures updated[l] == ScoreOf(done + [c], l, weight) {
    }
  }

  /** A commit by a login already in the dictionary adds the commit's weight to its score. */
  lemma TalliedKnownLogin(order: seq<string>, scores: map<string, real>, done: seq<Commit>, c: Commit, weight: int -> real)
    requires Tallied(order, scores, done, weight)
    requires c.committer.Some? && c.committer.value in scores
    ensures var login := c.committer.value;
      Tallied(order, scores[login := scores[login] + weight(c.age)], done + [c], weight)
  {
    assert c.committer.value in order;
    KnownLoginOrder(order, done, c, weight);
    KnownLoginScores(order, scores, done, c, weight);
  }

  /** A commit without a committer leaves the dictionary as it is. */
  lemma TalliedNoCommitter(order: seq<string>, scores: map<string, real>, done: seq<Commit>, c: Commit, weight: int -> real)
    requires Tallied(order, scores, done, weight)
    requires c.committer.None?
    ensures Tallied(order, scores, done + [c], weight)
  {
    CommitStep(done, c, weight);
    assert Committers(done + [c]) == Committers(done);
  }

  /**
   * Folds one commit into the dictionary: a commit with a committer adds
   * its weight to the login's score, or adds the login with that weight.
   */
  method AddCommit(order0: seq<string>, scores0: map<string, real>, commit: Commit, weight: int -> real, ghost done: seq<Commit>)
    returns (order: seq<string>, scores: map<string, real>)
    requires Tallied(order0, scores0, done, weight)
    ensures Tallied(order, scores, done + [commit], weight)
  {
    if commit.committer.None? {
      TalliedNoCommitter(order0, scores0, done, commit, weight);
      return order0, scores0;
    }
    var login := commit.committer.value;
    var value := weight(commit.age);
    if login !in scores0 {
      TalliedNewLogin(order0, scores0, done, commit, weight);
      return order0 + [login], scores0[login := value];
    }
    TalliedKnownLogin(order0, scores0, done, commit, weight);
    return order0, scores0[login := scores0[login] + value];
  }

  /** Folds the commits of one repository into the dictionary, commit by commit. */
  method AddCommits(order0: seq<string>, scores0: map<string, real>, commits: seq<Commit>, weight: int -> real, ghost before: seq<Commit>)
    returns (order: seq<string>, scores: map<string, real>)
    requires Tallied(order0, scores0, before, weight)
    ensures Tallied(order, scores, before + commits, weight)
  {
    order, scores := order0, scores0;
    assert before + commits[..0] == before;
    for j := 0 to |commits|
      invariant Tallied(order, scores, before + commits[..j], weight)
    {
      order, scores := AddCommit(order, scores, commits[j], weight, before + commits[..j]);
      AppendPrefixStep(before, commits, j);
    }
    assert commits[..|commits|] == commits;
  }

  /**
   * One group: the dictionary `scores` with its insertion order `order` is
   * filled repository by repository and commit by commit, then sorted by
   * score, highest first.
   */
  method AggregateGroup(g: Group, fetch: string -> Fetch, weight: int -> real)
    returns (records: seq<Contribution>, failures: seq<FetchFailure>)
    ensures records == GroupRecords(g, fetch, weight)
    ensures failures == FailuresOf(g.repos, fetch)
  {
    var order: seq<string> := [];
    var scores: map<string, real> := map[];
    failures := [];
    for i := 0 to |g.repos|
      invariant Tallied(order, scores, Gathered(g.repos[..i], fetch), weight)
      invariant failures == FailuresOf(g.repos[..i], fetch)
    {
      var repo := g.repos[i];
      ghost var before := Gathered(g.repos[..i], fetch);
      GatheredStep(g.repos, i, fetch);
      match fetch(repo)
      case FetchFailed(message) =>
        failures := failures + [FetchFailure(repo, message)];
        assert Gathered(g.repos[..i + 1], fetch) == before + [];
        assert before + [] == before;
      case Fetched(commits) =>
        order, scores := AddCommits(order, scores, commits, weight, before);
        assert Gathered(g.repos[..i + 1], fetch) == before + commits;
    }
    assert g.repos[..|g.repos|] == g.repos;
    var tally := seq(|order|, k requires 0 <= k < |order| =>
      Contribution(g.name, order[k], if order[k] in scores then scores[order[k]] else 0.0));
    assert tally == Tally(g.name, Gathered(g.repos, fetch), weight);
    records := SortBy(tally, ScoreAtLeast);
  }

  /** All groups in order: each group's records are appended to the global list. */
  method AggregateAll(groups: seq<Group>, fetch: string -> Fetch, weight: int -> real)
    returns (all: seq<Contribution>, failures: seq<FetchFailure>)
    ensures all == AllRecords(groups, fetch, weight)
    ensures failures == AllFailures(groups, fetch)
  {
    all, failures := [], [];
    for i := 0 to |groups|
      invariant all == AllRecords(groups[..i], fetch, weight)
      invariant failures == AllFailures(groups[..i], fetch)
    {
      var records, groupFailures := AggregateGroup(groups[i], fetch, weight);
      FlatMapStep(groups, i, g => GroupRecords(g, fetch, weight));
      FlatMapStep(groups, i, (g: Group) => FailuresOf(g.repos, fetch));
      all := all + records;
      failures := failures + groupFailures;
    }
    assert groups[..|groups|] == groups;
  }

  // ---------------------------------------------------------------------------
  // What a group's records mean

  /** A group's dictionary holds exactly its committers, each with the sum of their commits' weights. */
  lemma TallyMeaning(group: string, cs: seq<Commit>, weight: int -> real)
    ensures forall r :: r in Tally(group, cs, weight) <==>
      r.group == group && r.login in Committers(cs) && r.score == ScoreOf(cs, r.login, weight)
    ensures KeysDistinct(Tally(group, cs, weight), (r: Contribution) => r.login)
  {
    var ls := Distinct(Committers(cs));
    var t := Tally(group, cs, weight);
    forall r ensures r in t <==> r.group == group && r.login in Committers(cs) && r.score == ScoreOf(cs, r.login, weight) {
      if r.group == group && r.login in Committers(cs) && r.score == ScoreOf(cs, r.login, weight) {
        var k :| 0 <= k < |ls| && ls[k] == r.login;
        assert t[k] == r;
      }
    }
  }

  /**
   * The records of a group: one per login that committed to one of its
   * successfully fetched repositories, scored with the sum of the weights
   * of that login's commits there; no login twice.
   */
  lemma GroupRecordsMeaning(g: Group, fetch: string -> Fetch, weight: int -> real)
    ensures forall r :: r in GroupRecords(g, fetch, weight) <==>
      && r.group == g.name
      && r.login in Committers(Gathered(g.repos, fetch))
      && r.score == ScoreOf(Gathered(g.repos, fetch), r.login, weight)
    ensures KeysDistinct(GroupRecords(g, fetch, weight), (r: Contribution) => r.login)
  {
    var t := Tally(g.name, Gathered(g.repos, fetch), weight);
    var rs := GroupRecords(g, fetch, weight);
    TallyMeaning(g.name, Gathered(g.repos, fetch), weight);
    assert forall r :: r in rs <==> r in multiset(rs);
    assert forall r :: r in t <==> r in multiset(t);
    SortByKeepsKeysDistinct(t, ScoreAtLeast, (r: Contribution) => r.login);
  }

  lemma GroupRecordsCarryName(g: Group, fetch: string -> Fetch, weight: int -> real)
    ensures forall r :: r in GroupRecords(g, fetch, weight) ==> r.group == g.name
  {
    GroupRecordsMeaning(g, fetch, weight);
  }

  /** A group's records come highest score first. */
  lemma GroupRecordsDescending(g: Group, fetch: string -> Fetch, weight: int -> real)
    ensures var rs := GroupRecords(g, fetch, weight);
      forall i, j :: 0 <= i < j < |rs| ==> rs[i].score >= rs[j].score
  {
    SortBySorted(Tally(g.name, Gathered(g.repos, fetch), weight), ScoreAtLeast);
  }

  /**
   * Equal scores keep the dictionary's order, which is the order of the
   * logins' first commits.
   */
  lemma GroupRecordsTiesKeepFirstCommitOrder(g: Group, fetch: string -> Fetch, weight: int -> real, v: real)
    ensures Filter(GroupRecords(g, fetch, weight), (r: Contribution) => r.score == v) ==
            Filter(Tally(g.name, Gathered(g.repos, fetch), weight), (r: Contribution) => r.score == v)
  {
    var t := Tally(g.name, Gathered(g.repos, fetch), weight);
    var rs := GroupRecords(g, fetch, weight);
    var pivot := Contribution("", "", v);
    var tie := (r: Contribution) => r.score == v;
    SortByStable(t, ScoreAtLeast, pivot);
    FilterCongruent(rs, y => Equivalent(ScoreAtLeast, y, pivot), tie);
    FilterCongruent(t, y => Equivalent(ScoreAtLeast, y, pivot), tie);
  }

  // ---------------------------------------------------------------------------
  // Sums

  function SumScores(rs: seq<Contribution>): real {
    if rs == [] then 0.0 else SumScores(rs[..|rs| - 1]) + rs[|rs| - 1].score
  }

  lemma {:induction false} SumScoresAppend(a: seq<Contribution>, b: seq<Contribution>)
    ensures SumScores(a + b) == SumScores(a) + SumScores(b)
    decreases |b|
  {
    if b == [] {
      assert a + b == a;
    } else {
      SumScoresAppend(a, b[..|b| - 1]);
      assert (a + b)[..|a + b| - 1] == a + b[..|b| - 1];
    }
  }

  /** Taking out the element at `k` takes its score out of the sum. */
  lemma SumScoresRemove(b: seq<Contribution>, k: nat)
    requires k < |b|
    ensures SumScores(b) == SumScores(b[..k] + b[k + 1..]) + b[k].score
  {
    var p, x, q := b[..k], b[k], b[k + 1..];
    SplitAt(b, k);
    SumScoresAppend(p + [x], q);
    assert (p + [x])[..|p|] == p;
    assert SumScores(p + [x]) == SumScores(p) + x.score;
    SumScoresAppend(p, q);
  }

  /** Taking the last element of `a` and an equal element of `b` out of two permutations leaves permutations. */
  lemma PermutationRemove(a: seq<Contribution>, b: seq<Contribution>, k: nat)
    requires multiset(a) == multiset(b) && a != [] && k < |b| && b[k] == a[|a| - 1]
    ensures multiset(a[..|a| - 1]) == multiset(b[..k] + b[k + 1..])
  {
    var x := a[|a| - 1];
    var a' := a[..|a| - 1];
    assert a == a' + [x];
    SplitAt(b, k);
    assert multiset(b) == multiset(b[..k]) + multiset{x} + multiset(b[k + 1..]);
    assert multiset(a') == multiset(a) - multiset{x};
  }

  lemma {:induction false} SumScoresPermutation(a: seq<Contribution>, b: seq<Contribution>)
    requires multiset(a) == multiset(b)
    ensures SumScores(a) == SumScores(b)
    decreases |a|
  {
    if a != [] {
      var x := a[|a| - 1];
      var a' := a[..|a| - 1];
      assert x in multiset(b) by {
        assert a == a' + [x];
      }
      var k :| 0 <= k < |b| && b[k] == x;
      PermutationRemove(a, b, k);
      SumScoresPermutation(a', b[..k] + b[k + 1..]);
      SumScoresRemove(b, k);
    }
  }

  lemma {:induction false} TallyOfStep(group: string, logins: seq<string>, cs: seq<Commit>, c: Commit, weight: int -> real)
    requires NoDuplicates(logins)
    ensures SumScores(TallyOf(group, logins, cs + [c], weight)) ==
      SumScores(TallyOf(group, logins, cs, weight)) +
      (if c.committer.Some? && c.committer.value in logins then weight(c.age) else 0.0)
    decreases |logins|
  {
    CommitStep(cs, c, weight);
    if logins != [] {
      var init := logins[..|logins| - 1];
      TallyOfStep(group, init, cs, c, weight);
      var t1 := TallyOf(group, logins, cs + [c], weight);
      var t0 := TallyOf(group, logins, cs, weight);
      assert t1[..|t1| - 1] == TallyOf(group, init, cs + [c], weight);
      assert t0[..|t0| - 1] == TallyOf(group, init, cs, weight);
      assert c.committer.Some? && c.committer.value in logins <==>
        (c.committer.Some? && c.committer.value in init) || c.committer == Some(logins[|logins| - 1]);
    }
  }

  /** One more commit raises the dictionary's total by its weight when it has a committer. */
  lemma TallyStep(group: string, p: seq<Commit>, c: Commit, weight: int -> real)
    ensures SumScores(Tally(group, p + [c], weight)) ==
      SumScores(Tally(group, p, weight)) + (if c.committer.Some? then weight(c.age) else 0.0)
  {
    CommitStep(p, c, weight);
    var d := Distinct(Committers(p));
    TallyOfStep(group, d, p, c, weight);
    if c.committer.Some? {
      var l := c.committer.value;
      assert Committers(p + [c]) == Committers(p) + [l];
      DistinctStep(Committers(p), l);
      if l in d {
        assert Tally(group, p + [c], weight) == TallyOf(group, d, p + [c], weight);
      } else {
        assert Tally(group, p + [c], weight) == TallyOf(group, d + [l], p + [c], weight);
        NewLoginStep(group, d, p, c, weight);
      }
    } else {
      assert Committers(p + [c]) == Committers(p);
    }
  }

  /** A first commit by a new login adds a record holding just that commit's weight. */
  lemma NewLoginStep(group: string, d: seq<string>, p: seq<Commit>, c: Commit, weight: int -> real)
    requires c.committer.Some? && c.committer.value !in Committers(p)
    ensures SumScores(TallyOf(group, d + [c.committer.value], p + [c], weight)) ==
      SumScores(TallyOf(group, d, p + [c], weight)) + weight(c.age)
  {
    var l := c.committer.value;
    var t := TallyOf(group, d + [l], p + [c], weight);
    assert (d + [l])[..|d|] == d;
    assert t[..|t| - 1] == TallyOf(group, d, p + [c], weight);
    CommitStep(p, c, weight);
    ScoreOfAbsent(p, l, weight);
  }

  /**
   * No double counting: the scores of a group's dictionary add up to the
   * total weight of the commits that have a committer.
   */
  lemma {:induction false} TallySumIsTotalWeight(group: string, cs: seq<Commit>, weight: int -> real)
    ensures SumScores(Tally(group, cs, weight)) == TotalWeight(cs, weight)
    decreases |cs|
  {
    if cs != [] {
      var p := cs[..|cs| - 1];
      var c := cs[|cs| - 1];
      assert cs == p + [c];
      TallySumIsTotalWeight(group, p, weight);
      TallyStep(group, p, c, weight);
    }
  }

  /** The scores of a group's records add up to the weight of all its attributed commits. */
  lemma GroupTotalIsTotalWeight(g: Group, fetch: string -> Fetch, weight: int -> real)
    ensures SumScores(GroupRecords(g, fetch, weight)) == TotalWeight(Gathered(g.repos, fetch), weight)
  {
    var t := Tally(g.name, Gathered(g.repos, fetch), weight);
    SumScoresPermutation(GroupRecords(g, fetch, weight), t);
    TallySumIsTotalWeight(g.name, Gathered(g.repos, fetch), weight);
  }

  lemma {:induction false} ScoreOfAppend(a: seq<Commit>, b: seq<Commit>, login: string, weight: int -> real)
    ensures ScoreOf(a + b, login, weight) == ScoreOf(a, login, weight) + ScoreOf(b, login, weight)
    decreases |b|
  {
    if b == [] {
      assert a + b == a;
    } else {
      ScoreOfAppend(a, b[..|b| - 1], login, weight);
      assert (a + b)[..|a + b| - 1] == a + b[..|b| - 1];
    }
  }

  /** The sum, over the repositories, of each repository's score for `login`. */
  function ScoreByRepo(repos: seq<string>, fetch: string -> Fetch, login: string, weight: int -> real): real {
    if repos == [] then 0.0
    else ScoreByRepo(repos[..|repos| - 1], fetch, login, weight) + ScoreOf(CommitsOf(fetch(repos[|repos| - 1])), login, weight)
  }

  /** A login's score in a group adds up its scores in each of the group's repositories. */
  lemma {:induction false} ScoreAcrossRepositories(repos: seq<string>, fetch: string -> Fetch, login: string, weight: int -> real)
    ensures ScoreOf(Gathered(repos, fetch), login, weight) == ScoreByRepo(repos, fetch, login, weight)
  {
    if repos != [] {
      ScoreAcrossRepositories(repos[..|repos| - 1], fetch, login, weight);
      ScoreOfAppend(Gathered(repos[..|repos| - 1], fetch), CommitsOf(fetch(repos[|repos| - 1])), login, weight);
    }
  }

  lemma {:induction false} GatheredAppend(a: seq<string>, b: seq<string>, fetch: string -> Fetch)
    ensures Gathered(a + b, fetch) == Gathered(a, fetch) + Gathered(b, fetch)
    decreases |b|
  {
    if b == [] {
      assert a + b == a;
    } else {
      var init, last := b[..|b| - 1], b[|b| - 1];
      GatheredAppend(a, init, fetch);
      assert (a + b)[..|a + b| - 1] == a + init && (a + b)[|a + b| - 1] == last;
      var x, y, z := Gathered(a, fetch), Gathered(init, fetch), CommitsOf(fetch(last));
      assert Gathered(a + b, fetch) == (x + y) + z;
      assert Gathered(b, fetch) == y + z;
      assert (x + y) + z == x + (y + z);
    }
  }

  /**
   * A repository whose fetch fails contributes nothing: the group's records
   * are those of the group without it, and the repositories after it are
   * still processed.
   */
  lemma FailedFetchContributesNothing(g: Group, i: nat, fetch: string -> Fetch, weight: int -> real)
    requires i < |g.repos| && fetch(g.repos[i]).FetchFailed?
    ensures GroupRecords(g, fetch, weight) == GroupRecords(Group(g.name, g.repos[..i] + g.repos[i + 1..]), fetch, weight)
  {
    var before, after := g.repos[..i], g.repos[i + 1..];
    assert Gathered(g.repos, fetch) == Gathered(before + after, fetch) by {
      var r := g.repos[i];
      assert g.repos == (before + [r]) + after;
      assert Gathered([r], fetch) == [] by {
        assert [r][..0] == [];
      }
      GatheredAppend(before + [r], after, fetch);
      GatheredAppend(before, [r], fetch);
      GatheredAppend(before, after, fetch);
      assert Gathered(before, fetch) + [] == Gathered(before, fetch);
    }
  }

  lemma {:induction false} CommittersAppend(a: seq<Commit>, b: seq<Commit>)
    ensures Committers(a + b) == Committers(a) + Committers(b)
    decreases |b|
  {
    if b == [] {
      assert a + b == a;
    } else {
      CommittersAppend(a, b[..|b| - 1]);
      assert (a + b)[..|a + b| - 1] == a + b[..|b| - 1];
    }
  }

  /** A commit without a committer changes no score and adds no login. */
  lemma NullCommitterIgnored(group: string, a: seq<Commit>, age: int, b: seq<Commit>, weight: int -> real)
    ensures Tally(group, a + [Commit(None, age)] + b, weight) == Tally(group, a + b, weight)
  {
    var c := Commit(None, age);
    var with, without := a + [c] + b, a + b;
    CommittersAppend(a + [c], b);
    CommittersAppend(a, [c]);
    CommittersAppend(a, b);
    assert Committers([c]) == [] by {
      assert [c][..0] == [];
    }
    assert Committers(with) == Committers(without);
    forall l ensures ScoreOf(with, l, weight) == ScoreOf(without, l, weight) {
      ScoreOfAppend(a + [c], b, l, weight);
      ScoreOfAppend(a, [c], l, weight);
      ScoreOfAppend(a, b, l, weight);
      assert ScoreOf([c], l, weight) == 0.0 by {
        assert [c][..0] == [];
      }
    }
  }

  /** With non-negative weights, every score is non-negative. */
  lemma {:induction false} ScoreNonNegative(cs: seq<Commit>, login: string, weight: int -> real)
    requires forall age :: weight(age) >= 0.0
    ensures ScoreOf(cs, login, weight) >= 0.0
  {
    if cs != [] {
      ScoreNonNegative(cs[..|cs| - 1], login, weight);
    }
  }

  // ---------------------------------------------------------------------------
  // The global list

  lemma AllRecordsLast(groups: seq<Group>, fetch: string -> Fetch, weight: int -> real)
    requires groups != []
    ensures AllRecords(groups, fetch, weight) ==
      AllRecords(groups[..|groups| - 1], fetch, weight) + GroupRecords(groups[|groups| - 1], fetch, weight)
  {
  }

  /** The position of a group whose records include `r`. */
  lemma GroupOfRecord(groups: seq<Group>, fetch: string -> Fetch, weight: int -> real, r: Contribution) returns (i: nat)
    requires r in AllRecords(groups, fetch, weight)
    ensures i < |groups| && r in GroupRecords(groups[i], fetch, weight)
  {
    FlatMapMembership(groups, g => GroupRecords(g, fetch, weight), r);
    i :| 0 <= i < |groups| && r in GroupRecords(groups[i], fetch, weight);
  }

  /** Every record of the global list belongs to a group of the group file. */
  lemma RecordGroupIsListed(groups: seq<Group>, fetch: string -> Fetch, weight: int -> real, r: Contribution)
    requires r in AllRecords(groups, fetch, weight)
    ensures r.group in Names(groups)
  {
    var i := GroupOfRecord(groups, fetch, weight, r);
    GroupRecordsCarryName(groups[i], fetch, weight);
    assert Names(groups)[i] == r.group;
  }

  /** A record is in the global list exactly when it is among the records of one of the groups. */
  lemma AllRecordsMembership(groups: seq<Group>, fetch: string -> Fetch, weight: int -> real)
    ensures forall r :: r in AllRecords(groups, fetch, weight) <==>
      exists i :: 0 <= i < |groups| && r in GroupRecords(groups[i], fetch, weight)
  {
    forall r ensures r in AllRecords(groups, fetch, weight) <==>
      exists i :: 0 <= i < |groups| && r in GroupRecords(groups[i], fetch, weight)
    {
      FlatMapMembership(groups, g => GroupRecords(g, fetch, weight), r);
    }
  }

  /** Within one group no login has two records. */
  lemma GroupRecordsUniquePairs(g: Group, fetch: string -> Fetch, weight: int -> real)
    ensures UniquePairs(GroupRecords(g, fetch, weight))
  {
    GroupRecordsMeaning(g, fetch, weight);
  }

  lemma UniquePairsAppend(a: seq<Contribution>, b: seq<Contribution>)
    requires UniquePairs(a) && UniquePairs(b)
    requires forall x, y :: x in a && y in b ==> x.group != y.group
    ensures UniquePairs(a + b)
  {
    var all := a + b;
    forall i, j | 0 <= i < j < |all| ensures all[i].group != all[j].group || all[i].login != all[j].login {
      if j < |a| {
        assert all[i] == a[i] && all[j] == a[j];
      } else if i < |a| {
        assert all[i] in a && all[j] in b;
      } else {
        assert all[i] == b[i - |a|] && all[j] == b[j - |a|];
      }
    }
  }

  /**
   * No two records of the global list share group and login, provided the
   * group names are distinct (as the group file's dictionary keys are), so
   * the matrix lookup never finds two matches.
   */
  lemma {:induction false} AllRecordsUniquePairs(groups: seq<Group>, fetch: string -> Fetch, weight: int -> real)
    requires NoDuplicates(Names(groups))
    ensures UniquePairs(AllRecords(groups, fetch, weight))
  {
    if groups != [] {
      var n := |groups| - 1;
      var init, g := groups[..n], groups[n];
      assert Names(init) == Names(groups)[..n];
      AllRecordsUniquePairs(init, fetch, weight);
      var a := AllRecords(init, fetch, weight);
      var b := GroupRecords(g, fetch, weight);
      AllRecordsLast(groups, fetch, weight);
      GroupRecordsUniquePairs(g, fetch, weight);
      GroupRecordsCarryName(g, fetch, weight);
      LastNameIsNew(groups);
      forall x, y | x in a && y in b ensures x.group != y.group {
        RecordGroupIsListed(init, fetch, weight, x);
      }
      UniquePairsAppend(a, b);
    }
  }
}
