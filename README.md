# Uranium contribution matrix, modelled in Dafny

Uranium is a console program. It reads a group file that assigns each
repository of a GitHub organization to a group. It lists the organization's
public repositories that no group mentions. Then it scores each group's
committers by the decayed weight of their commits, and writes a
tab-separated matrix of logins against groups to `matrix.txt`.

This project models that pipeline, which is the deterministic core of
`MainAsync`:

- **Group file** (`group_file.dfy`, with `text.dfy` for `Trim` and `Split()`):
  - each line is trimmed, and a line starting with `//` is a comment;
  - any other line is split on white space, and its first token (a
    repository) goes into the group named by its second token;
  - groups come in the order their names first appear, and each group's
    repositories come in line order;
  - a line with fewer than two tokens stops the program; the model reports
    the index of the first such line.
- **Ungrouped report** (`ungrouped.dfy`): the public repositories whose name no
  group lists, sorted by name.
- **Aggregation** (`aggregation.dfy`):
  - for each group, the commits of each repository are fetched;
  - a failed fetch is reported and that repository skipped;
  - each commit with a committer adds its weight to the committer's entry
    in a login-to-score dictionary;
  - the dictionary, sorted by score with the highest first, is appended to
    a global list of (group, login, score) records.
- **Matrix** (`matrix.dfy`):
  - the header is `Login/Group` followed by each distinct group of the records;
  - each distinct login gets one line with one cell per group;
  - a cell holds the score of the record found by `SingleOrDefault`, or `0`
    when there is none.
- **The run** (`report.dfy`): the steps above in order, with the network,
  clock and formatting as parameters.

LINQ's `Where`, `Distinct` and the stable `OrderBy` are in `linq.dfy`, with
`FlatMap`, which concatenates one list per element: it stands for the
repeated `AddRange` into the global list of records; `Option` and `Result` are in `wrappers.dfy`.

The dictionary and the output file are updated in place. So the
aggregation (`AddCommits`, `AggregateGroup`, `AggregateAll`) and the
matrix writer (`WriteHeader`, `WriteRow`, `WriteMatrix` on a `Writer`
object) are methods with loops. Each is proved equal to a specification
function, and the properties are proved about those functions.

## Model

| member | source | states |
|---|---|---|
| Text.Trim | src/Uranium.Console/Program.cs:40 | a non-empty trimmed line starts and ends with a character that is not white space |
| Text.TrimKeepsCore | src/Uranium.Console/Program.cs:40 | trimming removes exactly the white-space margins around a core whose ends are not white space |
| Text.SplitPiecesClean | src/Uranium.Console/Program.cs:42 | no piece of `Split()` holds a separator |
| Text.SplitFirst | src/Uranium.Console/Program.cs:42 | the first piece of `Split()` is the text up to the first separator |
| Text.SplitOne | src/Uranium.Console/Program.cs:42 | `Split()` gives one piece exactly when there is no separator |
| Text.SplitNone | src/Uranium.Console/Program.cs:42 | a text without separators splits into one piece, the whole text |
| Text.SplitAtSeparator | src/Uranium.Console/Program.cs:42 | splitting at a separator character gives the pieces before it followed by the pieces after it |
| Text.SplitJoin | src/Uranium.Console/Program.cs:42 | splitting at a separator undoes joining fields that hold no separator (used to read the matrix lines back) |
| GroupFile.ParseLine | src/Uranium.Console/Program.cs:40-43 | one line of the file: a comment, a malformed line, or an assignment of its first token to the group of its second; its meaning is stated by `ParseLineTokens`, `MalformedIff`, `BlankLineIsMalformed`, `ParseAssignmentLine` and `ParseFormattedLine` |
| GroupFile.ParseLineTokens | src/Uranium.Console/Program.cs:40-43 | the repository a line assigns is a non-empty token, and both the repository and the group name are free of white space |
| GroupFile.MalformedIff | src/Uranium.Console/Program.cs:40-43 | a line makes `tokens[1]` fault exactly when it is not a comment and its trimmed form holds no white space |
| GroupFile.BlankLineIsMalformed | src/Uranium.Console/Program.cs:40-43 | a blank or all-white-space line is an error, not a skipped line |
| GroupFile.ParseAssignmentLine | src/Uranium.Console/Program.cs:40-43 | a line holding, after any white space, a repository token, one white-space character of any kind, a group token, and then nothing or white space followed by anything, assigns the repository to the group; further tokens are ignored |
| GroupFile.ParseFormattedLine | src/Uranium.Console/Program.cs:40-43 | a line `repo group` with any white-space margins assigns `repo` to `group` |
| GroupFile.DoubleSpaceGivesEmptyGroupName | src/Uranium.Console/Program.cs:42-43 | two spaces between the tokens put the repository into a group with an empty name |
| GroupFile.Assignments | src/Uranium.Console/Program.cs:39-43 | the assignments of the lines in order, stopping at the first malformed line; its meaning is stated by `AssignmentsMeaning` and `CommentContributesNothing` |
| GroupFile.AssignmentsMeaning | src/Uranium.Console/Program.cs:39-43 | the lines succeed exactly when none is malformed; a failure names the first malformed line |
| GroupFile.CommentContributesNothing | src/Uranium.Console/Program.cs:41 | inserting a comment line leaves the assignments unchanged and only shifts a reported line index |
| GroupFile.AddToGroup | src/Uranium.Console/Program.cs:43-44 | an assignment appends its repository to the group of that name, or opens a new last group; every other group is unchanged |
| GroupFile.GroupByName | src/Uranium.Console/Program.cs:43-44 | the group names are distinct dictionary keys |
| GroupFile.GroupNamesInFirstAppearanceOrder | src/Uranium.Console/Program.cs:43-44 | the groups are the distinct group tokens, in the order they first appear |
| GroupFile.GroupsCollectTheirRepos | src/Uranium.Console/Program.cs:43-44 | each group's list is the repositories of the lines that name it, in line order |
| GroupFile.ParseGroups | src/Uranium.Console/Program.cs:39-44 | the file parses exactly when no line is malformed; the group names are distinct; a failure gives the first malformed line |
| GroupFile.ParsedNamesAreTokens | src/Uranium.Console/Program.cs:42-44 | parsed group and repository names hold no white space, and so no tab |
| Linq.Filter | src/Uranium.Console/Program.cs:47-48 | `Where` keeps exactly the elements satisfying the predicate |
| Linq.Distinct | src/Uranium.Console/Program.cs:113 | `Distinct` has no duplicates and the same elements as its input |
| Linq.DistinctInFirstOccurrenceOrder | src/Uranium.Console/Program.cs:113-120 | `Distinct` keeps the order of first occurrences (the column and row order) |
| Linq.SortBy | src/Uranium.Console/Program.cs:49 | `OrderBy` returns a permutation of its input |
| Linq.SortBySorted | src/Uranium.Console/Program.cs:49 | `OrderBy` with a total preorder returns a sorted sequence |
| Linq.SortByStable | src/Uranium.Console/Program.cs:105 | `OrderByDescending` is stable: elements with equal keys keep their input order |
| Linq.FilterTwo | src/Uranium.Console/Program.cs:126-127 | at least two elements pass the filter exactly when two positions satisfy the predicate |
| Ungrouped.UngroupedRepos | src/Uranium.Console/Program.cs:46-49 | a repository is reported exactly when it is public and no group lists its name; the report is a permutation of the filtered listing |
| Ungrouped.UngroupedInNameOrder | src/Uranium.Console/Program.cs:49 | the report comes in ascending name order |
| Ungrouped.UngroupedOncePerName | src/Uranium.Console/Program.cs:46-49 | with unique repository names, no name is reported twice |
| Aggregation.Gathered | src/Uranium.Console/Program.cs:66-86 | the commits of a group's fetched repositories, in repository order, skipping a failed fetch; its meaning is stated by `ScoreAcrossRepositories` and `FailedFetchContributesNothing` |
| Aggregation.FailuresOf | src/Uranium.Console/Program.cs:70-85 | the failed fetches of a group, in repository order, each with its message; `AggregateGroup` is proved to report exactly these |
| Aggregation.AllFailures | src/Uranium.Console/Program.cs:59-85 | the failed fetches of every group, in group order; `AggregateAll` is proved to report exactly these |
| Aggregation.TalliedNewLogin | src/Uranium.Console/Program.cs:93-96 | a commit by a login not yet in the dictionary adds that login last, with the commit's weight, and keeps the dictionary equal to the scores over the commits so far |
| Aggregation.TalliedKnownLogin | src/Uranium.Console/Program.cs:93-100 | a commit by a login already in the dictionary adds its weight to that login's score and keeps the key order |
| Aggregation.TalliedNoCommitter | src/Uranium.Console/Program.cs:87 | a commit without a committer leaves the dictionary as it is |
| Aggregation.AddCommit | src/Uranium.Console/Program.cs:87-100 | folding one commit into the dictionary keeps its keys, in insertion order, the distinct committers so far, each mapped to the sum of the weights of their commits |
| Aggregation.AddCommits | src/Uranium.Console/Program.cs:87-101 | after one repository's commits, the dictionary's keys, in insertion order, are the distinct committers so far, each mapped to the sum of the weights of their commits |
| Aggregation.AggregateGroup | src/Uranium.Console/Program.cs:65-107 | a group's records are its dictionary sorted highest score first, and its failures are the failed fetches in order |
| Aggregation.AggregateAll | src/Uranium.Console/Program.cs:57-108 | the global list is each group's records after those of the groups before it, and likewise the failures |
| Aggregation.Tally | src/Uranium.Console/Program.cs:65-101 | the filled dictionary enumerated in insertion order; its meaning is stated by `TallyMeaning` and `TallySumIsTotalWeight` |
| Aggregation.GroupRecords | src/Uranium.Console/Program.cs:104-107 | a group's records: the dictionary sorted highest score first, each entry tagged with the group; its meaning is stated by `GroupRecordsMeaning`, `GroupRecordsDescending` and `GroupRecordsTiesKeepFirstCommitOrder` |
| Aggregation.AllRecords | src/Uranium.Console/Program.cs:57-108 | the global list: each group's records after those of the groups before it; its meaning is stated by `AllRecordsMembership`, `RecordGroupIsListed` and `AllRecordsUniquePairs` |
| Aggregation.TallyMeaning | src/Uranium.Console/Program.cs:65-101 | the dictionary holds exactly the committers, each once, with the sum of their commits' weights |
| Aggregation.GroupRecordsMeaning | src/Uranium.Console/Program.cs:65-107 | a group's records are exactly one per login committing to its fetched repositories, scored with that login's total weight there; no login twice |
| Aggregation.GroupRecordsDescending | src/Uranium.Console/Program.cs:104-105 | a group's records come in non-increasing score order |
| Aggregation.GroupRecordsTiesKeepFirstCommitOrder | src/Uranium.Console/Program.cs:104-105 | records with equal scores keep the dictionary's order, which is the order of each login's first commit |
| Aggregation.TallySumIsTotalWeight | src/Uranium.Console/Program.cs:87-101 | the dictionary's scores add up to the total weight of the commits that have a committer |
| Aggregation.GroupTotalIsTotalWeight | src/Uranium.Console/Program.cs:87-107 | a group's record scores add up exactly to the weight of all its attributed commits |
| Aggregation.ScoreAcrossRepositories | src/Uranium.Console/Program.cs:66-101 | a login's score in a group is the sum of its scores in each repository of the group |
| Aggregation.FailedFetchContributesNothing | src/Uranium.Console/Program.cs:71-85 | a repository whose fetch fails changes no record, and the repositories after it are still counted |
| Aggregation.NullCommitterIgnored | src/Uranium.Console/Program.cs:87 | a commit without a committer changes no score and adds no login |
| Aggregation.ScoreNonNegative | src/Uranium.Console/Program.cs:90-99 | with a non-negative weight, every score is non-negative |
| Aggregation.AllRecordsMembership | src/Uranium.Console/Program.cs:57-108 | a record is in the global list exactly when it is a record of one of the groups |
| Aggregation.RecordGroupIsListed | src/Uranium.Console/Program.cs:57-107 | every record of the global list carries the name of a group of the file |
| Aggregation.GroupRecordsUniquePairs | src/Uranium.Console/Program.cs:87-107 | within one group no login has two records, since the logins are dictionary keys |
| Aggregation.AllRecordsUniquePairs | src/Uranium.Console/Program.cs:59-107 | no two records of the global list share group and login |
| Matrix.Writer.Write | src/Uranium.Console/Program.cs:112-115 | writing appends text to the current line and leaves the finished lines alone |
| Matrix.Writer.WriteLine | src/Uranium.Console/Program.cs:118 | a line break finishes the current line and starts an empty one |
| Matrix.ColumnsAreGroups | src/Uranium.Console/Program.cs:113 | the columns are exactly the groups of the records, each once |
| Matrix.RowsAreLogins | src/Uranium.Console/Program.cs:120 | the rows are exactly the logins of the records, each once |
| Matrix.SingleOrDefault | src/Uranium.Console/Program.cs:125-127 | the lookup of one cell: no match, the one match, or a failure when several records match; its meaning is stated by `SingleOrDefaultMeaning` |
| Matrix.CellText | src/Uranium.Console/Program.cs:129-131 | a cell's text: the formatted score of the record found, or `0`; its meaning is stated by `CellMeaning` |
| Matrix.MatrixLines | src/Uranium.Console/Program.cs:110-135 | the lines of the file: the header, then one line per login; `WriteMatrix` is proved to write exactly these, and `MatrixReadBack` states what they hold |
| Matrix.SingleOrDefaultMeaning | src/Uranium.Console/Program.cs:125-127 | the lookup finds nothing when no record matches and the only matching record when one does; it fails exactly when two records match |
| Matrix.AmbiguousCellIffDuplicate | src/Uranium.Console/Program.cs:123-127 | some cell's lookup fails exactly when two records share group and login |
| Matrix.WriteHeader | src/Uranium.Console/Program.cs:112-118 | the header line is `Login/Group` followed by a tab and each column |
| Matrix.WriteRow | src/Uranium.Console/Program.cs:122-134 | a login's line is the login followed by a tab and each cell; when a lookup fails it returns the first column, in column order, whose lookup finds two records, and finishes no line |
| Matrix.WriteMatrix | src/Uranium.Console/Program.cs:110-135 | the file is written exactly when no two records share group and login, and is then the header followed by one line per login; a failure reports the first cell, in row-major order, whose lookup finds two records |
| Matrix.CellMeaning | src/Uranium.Console/Program.cs:125-131 | with unique pairs, a cell holds the formatted score of the record with its group and login, or `0` when there is none |
| Matrix.HeaderReadBack | src/Uranium.Console/Program.cs:112-118 | split at tabs, the header gives `Login/Group` and the columns |
| Matrix.RowReadBack | src/Uranium.Console/Program.cs:122-134 | split at tabs, a login's line gives the login and one cell per column, in column order |
| Matrix.MatrixReadBack | src/Uranium.Console/Program.cs:112-135 | split at tabs, the header gives `Login/Group` and the columns, and each line gives its login and exactly one cell per column, in column order |
| Report.GroupRecordsEmptyIff | src/Uranium.Console/Program.cs:65-107 | a group has records exactly when one of its fetched commits has a committer |
| Report.ColumnsAreGroupsWithCommits | src/Uranium.Console/Program.cs:113-116 | the columns are the file's groups that have a commit with a committer, in group-file order; a group without contributions gets no column |
| Report.RowsAreCommitters | src/Uranium.Console/Program.cs:120 | a login has a row exactly when it committed to a fetched repository of some group |
| Report.MatrixCell | src/Uranium.Console/Program.cs:123-131 | the cell of a group and login is the formatted sum of that login's commit weights over the group's fetched repositories, or `0` when the login has no commit there |
| Report.Run | src/Uranium.Console/Program.cs:39-135 | a run fails exactly when a group-file line is malformed; otherwise it gives the ungrouped report, the fetch failures and the matrix lines, and the cell lookup never fails |

## Left out

- GitHub access is not modelled: the credentials, the client, the
  repository listing and `CommitService.Get`. The listing is the `repos`
  parameter, and a repository's commits or fetch error is the `fetch`
  parameter. The exception message of a failed fetch is the `message` of
  `FetchFailed`.
- `fetch` is a function of the repository name. A repository listed twice,
  in one group or in two, therefore gets the same commits, or the same
  failure, each time. The program calls `CommitService.Get` again for each
  listing (Program.cs:73), and two calls can return different results.
- The decay weight `1 / 2^(2 * days / 365.25)` and the clock are the `weight`
  parameter, a function of the commit's age. The age is the `Days` component
  of a NodaTime `Period`, and its computation is not modelled. No property
  relies on the weight's shape beyond `ScoreNonNegative`'s assumption that
  it is non-negative.
- Floating point is not modelled: scores are exact `real` numbers. The sum
  properties (`ScoreAcrossRepositories`, `TallySumIsTotalWeight`,
  `GroupTotalIsTotalWeight`) hold for exact addition. For `double`, they
  hold only up to rounding, and the ordering of equal-looking scores can
  differ.
- `double.ToString(CultureInfo.InvariantCulture)` is the `format` parameter.
  `MatrixReadBack` assumes the formatted scores, the logins and the group
  names hold no tab. Parsed group names never do (`ParsedNamesAreTokens`).
- The string comparison used by `OrderBy(repo => repo.Name)` depends on the
  current culture. It is the `precedes` parameter, and
  `UngroupedInNameOrder` assumes it is a total preorder.
- `File.ReadAllLines` is not modelled. The group file is given as its lines.
- The matrix file is modelled as its sequence of lines. The newline sequence
  and the encoding are not modelled.
- `WriteMatrix`: when a lookup fails, the model returns a failure. It does not
  model the partial file that the disposed `StreamWriter` leaves behind.
  `Report.Run` shows that this case never arises.
- Console output (`ColorConsole`) is returned as data. The ungrouped
  repositories and the fetch failures are returned; the colours and the
  group and repository headings are not modelled.
- `async`/`await` is not modelled; every step runs in sequence.
- `Report.Run`: a malformed group-file line is a `Failure` carrying the
  line's index. The program instead stops with `IndexOutOfRangeException`
  before reporting anything.
- The dictionary of groups and the login-to-score dictionary are assumed to
  enumerate in insertion order. Nothing is ever removed from them, and this
  is the order `Dictionary` gives in that case.
- Commit authorship other than the committer's login is not modelled. A
  commit's login is `None` when `Committer` is null.
