/**
 * The report of ungrouped repositories (src/Uranium.Console/Program.cs:46-55):
 * the organization's public repositories that no group lists, ordered by
 * name. It only produces diagnostics; nothing later reads it.
 */
module Ungrouped {
  import opened Linq
  import opened GroupFile

  /** A repository of the organization as the listing returns it. */
  datatype Repo = Repo(name: string, isPrivate: bool)

  /** Some group lists a repository of this name. */
  predicate IsGrouped(groups: seq<Group>, name: string) {
    exists i :: 0 <= i < |groups| && name in groups[i].repos
  }

  predicate IsReported(groups: seq<Group>, repo: Repo) {
    !repo.isPrivate && !IsGrouped(groups, repo.name)
  }

  /** Compares repositories by name with the given string comparison. */
  function ByName(precedes: (string, string) -> bool): (Repo, Repo) -> bool {
    (a: Repo, b: Repo) => precedes(a.name, b.name)
  }

  /**
   * The repositories reported as not grouped. `precedes` is the string
   * comparison `OrderBy` uses for the names.
   */
  function UngroupedRepos(repos: seq<Repo>, groups: seq<Group>, precedes: (string, string) -> bool): (r: seq<Repo>)
    ensures forall x :: x in r <==> x in repos && !x.isPrivate && !IsGrouped(groups, x.name)
    ensures multiset(r) == multiset(Filter(repos, x => IsReported(groups, x)))
  {
    var f := Filter(repos, x => IsReported(groups, x));
    var r := SortBy(f, ByName(precedes));
    assert forall x :: x in r <==> x in multiset(r);
    assert forall x :: x in f <==> x in multiset(f);
    assert forall x :: x in f <==> x in repos && IsReported(groups, x);
    r
  }

  /** The report comes in name order. */
  lemma UngroupedInNameOrder(repos: seq<Repo>, groups: seq<Group>, precedes: (string, string) -> bool)
    requires TotalPreorder(precedes)
    ensures var r := UngroupedRepos(repos, groups, precedes);
      forall i, j :: 0 <= i < j < |r| ==> precedes(r[i].name, r[j].name)
  {
    var le := ByName(precedes);
    assert TotalPreorder(le) by {
      forall a: Repo, b: Repo ensures le(a, b) || le(b, a) {
        assert precedes(a.name, b.name) || precedes(b.name, a.name);
      }
      forall a: Repo, b: Repo, c: Repo | le(a, b) && le(b, c) ensures le(a, c) {
        assert precedes(a.name, b.name) && precedes(b.name, c.name);
      }
    }
    SortBySorted(Filter(repos, x => IsReported(groups, x)), le);
  }

  /** Repository names are unique in an organization, so each is reported at most once. */
  lemma UngroupedOncePerName(repos: seq<Repo>, groups: seq<Group>, precedes: (string, string) -> bool)
    requires forall i, j :: 0 <= i < j < |repos| ==> repos[i].name != repos[j].name
    ensures var r := UngroupedRepos(repos, groups, precedes);
      forall i, j :: 0 <= i < j < |r| ==> r[i].name != r[j].name
  {
    var name := (x: Repo) => x.name;
    var f := Filter(repos, x => IsReported(groups, x));
    assert KeysDistinct(repos, name);
    FilterKeepsKeysDistinct(repos, x => IsReported(groups, x), name);
    SortByKeepsKeysDistinct(f, ByName(precedes), name);
  }
}
