/**
 * The contribution matrix (src/Uranium.Console/Program.cs:110-135): a
 * tab-separated table with one column per group and one row per login,
 * both in the order of their first record in the global list; a cell holds
 * the login's score in the group, or "0" when the login has no record there.
 * The cell lookup is `SingleOrDefault`, which fails when two records share
 * group and login.
 */
module Matrix {
  import opened Wrappers
  import opened Linq
  import opened Text
  import opened Aggregation

  /** The output file: the lines completed so far and the line being written. */
  class Writer {
    var lines: seq<string>
    var current: string

    constructor()
      ensures lines == [] && current == ""
    {
      lines, current := [], "";
    }

    /** `TextWriter.Write`: the text goes onto the current line. */
    method Write(s: string)
      modifies this
      ensures lines == old(lines) && current == old(current) + s
    {
      current := current + s;
    }

    /** `TextWriter.WriteLine()`: the current line is completed. */
    method WriteLine()
      modifies this
      ensures lines == old(lines) + [old(current)] && current == ""
    {
      lines, current := lines + [current], "";
    }
  }

  /** The first cell of the header line. */
  const Corner: string := "Login/Group"

  function GroupColumn(rs: seq<Contribution>): seq<string> {
    seq(|rs|, i requires 0 <= i < |rs| => rs[i].group)
  }

  function LoginColumn(rs: seq<Contribution>): seq<string> {
    seq(|rs|, i requires 0 <= i < |rs| => rs[i].login)
  }

  /** The columns: each group that has a record, once, in the order of its first record. */
  function Columns(rs: seq<Contribution>): seq<string> {
    Distinct(GroupColumn(rs))
  }

  /** The rows: each login that has a record, once, in the order of its first record. */
  function Rows(rs: seq<Contribution>): seq<string> {
    Distinct(LoginColumn(rs))
  }

  /** The columns are exactly the groups of the records, each once. */
  lemma ColumnsAreGroups(rs: seq<Contribution>)
    ensures NoDuplicates(Columns(rs))
    ensures forall g :: g in Columns(rs) <==> exists r :: r in rs && r.group == g
  {
    forall g ensures g in Columns(rs) <==> exists r :: r in rs && r.group == g {
      if g in GroupColumn(rs) {
        var i :| 0 <= i < |rs| && GroupColumn(rs)[i] == g;
        assert rs[i] in rs;
      } else {
        forall r | r in rs ensures r.group != g {
          var i :| 0 <= i < |rs| && rs[i] == r;
          assert GroupColumn(rs)[i] == r.group;
        }
      }
    }
  }

  /** The rows are exactly the logins of the records, each once. */
  lemma RowsAreLogins(rs: seq<Contribution>)
    ensures NoDuplicates(Rows(rs))
    ensures forall l :: l in Rows(rs) <==> exists r :: r in rs && r.login == l
  {
    forall l ensures l in Rows(rs) <==> exists r :: r in rs && r.login == l {
      if l in LoginColumn(rs) {
        var i :| 0 <= i < |rs| && LoginColumn(rs)[i] == l;
        assert rs[i] in rs;
      } else {
        forall r | r in rs ensures r.login != l {
          var i :| 0 <= i < |rs| && rs[i] == r;
          assert LoginColumn(rs)[i] == r.login;
        }
      }
    }
  }

  predicate IsAt(c: Contribution, group: string, login: string) {
    c.group == group && c.login == login
  }

  /** The result of `SingleOrDefault` on the records of one cell. */
  datatype Lookup = NoMatch | Match(record: Contribution) | MoreThanOne

  /**
   * `SingleOrDefault(candidate => candidate.Group == group && candidate.Login == login)`:
   * the default when no record matches, the record when exactly one does,
   * and an `InvalidOperationException` when several do.
   */
  function SingleOrDefault(rs: seq<Contribution>, group: string, login: string): Lookup {
    var m := Filter(rs, (c: Contribution) => IsAt(c, group, login));
    if |m| == 0 then NoMatch
    else if |m| == 1 then Match(m[0])
    else MoreThanOne
  }

  /**
   * What the lookup finds: nothing when no record matches, the one record
   * that matches, or failure exactly when two records match.
   */
  lemma SingleOrDefaultMeaning(rs: seq<Contribution>, group: string, login: string)
    ensures SingleOrDefault(rs, group, login).NoMatch? <==> forall c :: c in rs ==> !IsAt(c, group, login)
    ensures var found := SingleOrDefault(rs, group, login);
      found.Match? ==>
        && found.record in rs && IsAt(found.record, group, login)
        && forall c :: c in rs && IsAt(c, group, login) ==> c == found.record
    ensures SingleOrDefault(rs, group, login).MoreThanOne? <==>
      exists i, j :: 0 <= i < j < |rs| && IsAt(rs[i], group, login) && IsAt(rs[j], group, login)
  {
    var at := (c: Contribution) => IsAt(c, group, login);
    var m := Filter(rs, at);
    FilterTwo(rs, at);
    assert forall c :: c in rs && IsAt(c, group, login) ==> c in m;
    if |m| == 1 {
      assert m[0] in m;
    }
  }

  /** A cell: the score formatted, or "0" without a record. */
  function CellText(found: Lookup, format: real -> string): string {
    if found.Match? then format(found.record.score) else "0"
  }

  function Cells(rs: seq<Contribution>, login: string, groups: seq<string>, format: real -> string): seq<string> {
    seq(|groups|, j requires 0 <= j < |groups| => CellText(SingleOrDefault(rs, groups[j], login), format))
  }

  function HeaderLine(rs: seq<Contribution>): string {
    Join([Corner] + Columns(rs), '\t')
  }

  function RowLine(rs: seq<Contribution>, login: string, format: real -> string): string {
    Join([login] + Cells(rs, login, Columns(rs), format), '\t')
  }

  /** The lines of the matrix file: the header, then one line per login. */
  function MatrixLines(rs: seq<Contribution>, format: real -> string): seq<string> {
    [HeaderLine(rs)] + seq(|Rows(rs)|, k requires 0 <= k < |Rows(rs)| => RowLine(rs, Rows(rs)[k], format))
  }

  /** Some cell's lookup finds two records. */
  predicate HasAmbiguousCell(rs: seq<Contribution>) {
    exists g, l :: g in Columns(rs) && l in Rows(rs) && SingleOrDefault(rs, g, l).MoreThanOne?
  }

  /** The lookup fails in some cell exactly when two records share group and login. */
  lemma AmbiguousCellIffDuplicate(rs: seq<Contribution>)
    ensures HasAmbiguousCell(rs) <==> !UniquePairs(rs)
  {
    ColumnsAreGroups(rs);
    RowsAreLogins(rs);
    if !UniquePairs(rs) {
      var i, j :| 0 <= i < j < |rs| && rs[i].group == rs[j].group && rs[i].login == rs[j].login;
      assert rs[i] in rs;
      SingleOrDefaultMeaning(rs, rs[i].group, rs[i].login);
      assert SingleOrDefault(rs, rs[i].group, rs[i].login).MoreThanOne?;
    }
    if HasAmbiguousCell(rs) {
      var g, l :| g in Columns(rs) && l in Rows(rs) && SingleOrDefault(rs, g, l).MoreThanOne?;
      SingleOrDefaultMeaning(rs, g, l);
    }
  }

  /** No cell of `login`'s line for `groups` finds two records. */
  predicate RowUnambiguous(rs: seq<Contribution>, groups: seq<string>, login: string) {
    forall j :: 0 <= j < |groups| ==> !SingleOrDefault(rs, groups[j], login).MoreThanOne?
  }

  /** No cell of the grid `groups` x `logins` finds two records. */
  predicate GridUnambiguous(rs: seq<Contribution>, groups: seq<string>, logins: seq<string>) {
    forall k :: 0 <= k < |logins| ==> RowUnambiguous(rs, groups, logins[k])
  }

  lemma GridCoversCells(rs: seq<Contribution>)
    requires GridUnambiguous(rs, Columns(rs), Rows(rs))
    ensures !HasAmbiguousCell(rs)
  {
  }

  /** One more cell on a login's line: a tab and the cell's text are appended. */
  lemma RowPrefixStep(rs: seq<Contribution>, login: string, groups: seq<string>, j: nat, format: real -> string)
    requires j < |groups|
    ensures Join([login] + Cells(rs, login, groups[..j + 1], format), '\t') ==
      Join([login] + Cells(rs, login, groups[..j], format), '\t') + ("\t" + CellText(SingleOrDefault(rs, groups[j], login), format))
  {
    var prefix := [login] + Cells(rs, login, groups[..j], format);
    var cell := CellText(SingleOrDefault(rs, groups[j], login), format);
    assert [login] + Cells(rs, login, groups[..j + 1], format) == prefix + [cell];
    JoinStep(prefix, cell, '\t');
  }

  lemma RowUnambiguousStep(rs: seq<Contribution>, groups: seq<string>, login: string, j: nat)
    requires j < |groups| && RowUnambiguous(rs, groups[..j], login)
    requires !SingleOrDefault(rs, groups[j], login).MoreThanOne?
    ensures RowUnambiguous(rs, groups[..j + 1], login)
  {
    var longer, shorter := groups[..j + 1], groups[..j];
    forall i | 0 <= i < |longer| ensures !SingleOrDefault(rs, longer[i], login).MoreThanOne? {
      if i < j {
        assert longer[i] == shorter[i];
      }
    }
  }

  /** Writes the header line: the corner label, then a tab and each group. */
  method WriteHeader(w: Writer, groups: seq<string>)
    requires w.lines == [] && w.current == ""
    modifies w
    ensures w.lines == [Join([Corner] + groups, '\t')] && w.current == ""
  {
    w.Write(Corner);
    for j := 0 to |groups|
      invariant w.lines == [] && w.current == Join([Corner] + groups[..j], '\t')
    {
      assert [Corner] + groups[..j + 1] == ([Corner] + groups[..j]) + [groups[j]];
      JoinStep([Corner] + groups[..j], groups[j], '\t');
      w.Write("\t" + groups[j]);
    }
    assert [Corner] + groups[..|groups|] == [Corner] + groups;
    w.WriteLine();
  }

  /**
   * Writes one login's line: the login, then a tab and the cell of each
   * group. Stops at the first group whose lookup finds two records and
   * returns it.
   */
  method WriteRow(w: Writer, rs: seq<Contribution>, login: string, groups: seq<string>, format: real -> string)
    returns (failed: Option<string>)
    requires w.current == ""
    modifies w
    ensures failed.None? ==> w.lines == old(w.lines) + [Join([login] + Cells(rs, login, groups, format), '\t')] && w.current == ""
    ensures failed.None? <==> RowUnambiguous(rs, groups, login)
    ensures failed.Some? ==> SingleOrDefault(rs, failed.value, login).MoreThanOne?
    ensures failed.Some? ==>
      exists j :: 0 <= j < |groups| && groups[j] == failed.value && RowUnambiguous(rs, groups[..j], login)
    ensures failed.Some? ==> w.lines == old(w.lines)
  {
    w.Write(login);
    for j := 0 to |groups|
      invariant w.lines == old(w.lines)
      invariant w.current == Join([login] + Cells(rs, login, groups[..j], format), '\t')
      invariant RowUnambiguous(rs, groups[..j], login)
    {
      var found := SingleOrDefault(rs, groups[j], login);
      if found.MoreThanOne? {
        return Some(groups[j]);
      }
      var cell := CellText(found, format);
      RowPrefixStep(rs, login, groups, j, format);
      RowUnambiguousStep(rs, groups, login, j);
      w.Write("\t" + cell);
    }
    assert groups[..|groups|] == groups;
    w.WriteLine();
    return None;
  }

  /** The first `k + 2` lines of the file: the first `k + 1` and the line of the `k`-th login. */
  lemma MatrixPrefixStep(rs: seq<Contribution>, format: real -> string, k: nat)
    requires k < |Rows(rs)|
    ensures MatrixLines(rs, format)[..k + 2] == MatrixLines(rs, format)[..k + 1] + [RowLine(rs, Rows(rs)[k], format)]
  {
    var lines := MatrixLines(rs, format);
    assert lines[k + 1] == RowLine(rs, Rows(rs)[k], format);
  }

  lemma GridUnambiguousStep(rs: seq<Contribution>, groups: seq<string>, logins: seq<string>, k: nat)
    requires k < |logins| && GridUnambiguous(rs, groups, logins[..k])
    requires RowUnambiguous(rs, groups, logins[k])
    ensures GridUnambiguous(rs, groups, logins[..k + 1])
  {
    var longer, shorter := logins[..k + 1], logins[..k];
    forall i | 0 <= i < |longer| ensures RowUnambiguous(rs, groups, longer[i]) {
      if i < k {
        assert longer[i] == shorter[i];
      }
    }
  }

  /** The error when the lookup of a cell finds more than one record. */
  datatype MatrixError = MoreThanOneMatch(group: string, login: string)

  /**
   * Writes the matrix line by line, cell by cell. Fails at the first cell,
   * in row-major order, whose lookup finds two records, which happens
   * exactly when two records share group and login; otherwise the file is
   * `MatrixLines`.
   */
  method WriteMatrix(records: seq<Contribution>, format: real -> string) returns (result: Result<seq<string>, MatrixError>)
    ensures result.Success? <==> UniquePairs(records)
    ensures result.Success? ==> result.value == MatrixLines(records, format)
    ensures result.Failure? ==>
      SingleOrDefault(records, result.error.group, result.error.login).MoreThanOne?
    ensures result.Failure? ==>
      exists k, j :: 0 <= k < |Rows(records)| && 0 <= j < |Columns(records)|
        && Rows(records)[k] == result.error.login && Columns(records)[j] == result.error.group
        && GridUnambiguous(records, Columns(records), Rows(records)[..k])
        && RowUnambiguous(records, Columns(records)[..j], result.error.login)
  {
    AmbiguousCellIffDuplicate(records);
    ghost var expected := MatrixLines(records, format);
    var w := new Writer();
    var groups := Columns(records);
    WriteHeader(w, groups);
    var logins := Rows(records);
    for k := 0 to |logins|
      invariant w.lines == expected[..k + 1] && w.current == ""
      invariant GridUnambiguous(records, groups, logins[..k])
    {
      var failed := WriteRow(w, records, logins[k], groups, format);
      if failed.Some? {
        return Failure(MoreThanOneMatch(failed.value, logins[k]));
      }
      MatrixPrefixStep(records, format, k);
      GridUnambiguousStep(records, groups, logins, k);
    }
    assert |expected| == |logins| + 1;
    assert expected[..|logins| + 1] == expected;
    assert logins[..|logins|] == logins;
    GridCoversCells(records);
    result := Success(w.lines);
  }

  /**
   * With unique (group, login) pairs, a cell holds the formatted score of
   * the record with that group and login, and "0" when there is none.
   */
  lemma CellMeaning(rs: seq<Contribution>, group: string, login: string, format: real -> string)
    requires UniquePairs(rs)
    ensures forall r :: r in rs && IsAt(r, group, login) ==>
      CellText(SingleOrDefault(rs, group, login), format) == format(r.score)
    ensures (forall r :: r in rs ==> !IsAt(r, group, login)) ==>
      CellText(SingleOrDefault(rs, group, login), format) == "0"
  {
    SingleOrDefaultMeaning(rs, group, login);
  }

  /** Names, logins and formatted scores that contain no tab. */
  predicate TabFree(rs: seq<Contribution>, format: real -> string) {
    forall r :: r in rs ==>
      NoneWhere(r.group, IsTab) && NoneWhere(r.login, IsTab) && NoneWhere(format(r.score), IsTab)
  }

  lemma ColumnsTabFree(rs: seq<Contribution>, format: real -> string)
    requires TabFree(rs, format)
    ensures forall j :: 0 <= j < |Columns(rs)| ==> NoneWhere(Columns(rs)[j], IsTab)
  {
    forall j | 0 <= j < |Columns(rs)| ensures NoneWhere(Columns(rs)[j], IsTab) {
      assert Columns(rs)[j] in GroupColumn(rs);
      var i :| 0 <= i < |rs| && GroupColumn(rs)[i] == Columns(rs)[j];
      assert rs[i] in rs;
    }
  }

  lemma CellsTabFree(rs: seq<Contribution>, login: string, groups: seq<string>, format: real -> string)
    requires TabFree(rs, format)
    ensures forall j :: 0 <= j < |groups| ==> NoneWhere(Cells(rs, login, groups, format)[j], IsTab)
  {
    forall j | 0 <= j < |groups| ensures NoneWhere(Cells(rs, login, groups, format)[j], IsTab) {
      SingleOrDefaultMeaning(rs, groups[j], login);
    }
  }

  /** Split at tabs, the header line gives the corner label and the columns. */
  lemma HeaderReadBack(rs: seq<Contribution>, format: real -> string)
    requires TabFree(rs, format)
    ensures Split(HeaderLine(rs), IsTab) == [Corner] + Columns(rs)
  {
    var header := [Corner] + Columns(rs);
    ColumnsTabFree(rs, format);
    forall k | 0 <= k < |header| ensures NoneWhere(header[k], IsTab) {
      if k > 0 {
        assert header[k] == Columns(rs)[k - 1];
      }
    }
    SplitJoin(header, '\t', IsTab);
  }

  /** Split at tabs, a login's line gives the login and its cells. */
  lemma RowReadBack(rs: seq<Contribution>, login: string, format: real -> string)
    requires TabFree(rs, format) && NoneWhere(login, IsTab)
    ensures Split(RowLine(rs, login, format), IsTab) == [login] + Cells(rs, login, Columns(rs), format)
  {
    var cells := Cells(rs, login, Columns(rs), format);
    var fields := [login] + cells;
    CellsTabFree(rs, login, Columns(rs), format);
    forall j | 0 <= j < |fields| ensures NoneWhere(fields[j], IsTab) {
      if j > 0 {
        assert fields[j] == cells[j - 1];
      }
    }
    SplitJoin(fields, '\t', IsTab);
  }

  /** A login of the rows is the login of some record, and so holds no tab. */
  lemma LoginTabFree(rs: seq<Contribution>, format: real -> string, login: string)
    requires TabFree(rs, format) && login in Rows(rs)
    ensures NoneWhere(login, IsTab)
  {
    assert login in LoginColumn(rs);
    var i :| 0 <= i < |rs| && LoginColumn(rs)[i] == login;
    assert rs[i] in rs;
  }

  /** Split at tabs, the line after the header that belongs to the `k`-th login. */
  lemma LineReadBack(rs: seq<Contribution>, format: real -> string, k: nat)
    requires TabFree(rs, format) && k < |Rows(rs)|
    ensures Split(MatrixLines(rs, format)[k + 1], IsTab) == [Rows(rs)[k]] + Cells(rs, Rows(rs)[k], Columns(rs), format)
  {
    var login := Rows(rs)[k];
    LoginTabFree(rs, format, login);
    RowReadBack(rs, login, format);
  }

  /**
   * Reading the file back: split at tabs, the header gives the corner label
   * and the columns, and each login's line gives the login and its cells.
   */
  lemma MatrixReadBack(rs: seq<Contribution>, format: real -> string)
    requires TabFree(rs, format)
    ensures |MatrixLines(rs, format)| == 1 + |Rows(rs)|
    ensures Split(MatrixLines(rs, format)[0], IsTab) == [Corner] + Columns(rs)
    ensures forall k :: 0 <= k < |Rows(rs)| ==>
      Split(MatrixLines(rs, format)[k + 1], IsTab) == [Rows(rs)[k]] + Cells(rs, Rows(rs)[k], Columns(rs), format)
  {
    HeaderReadBack(rs, format);
    forall k | 0 <= k < |Rows(rs)|
      ensures Split(MatrixLines(rs, format)[k + 1], IsTab) == [Rows(rs)[k]] + Cells(rs, Rows(rs)[k], Columns(rs), format)
    {
      LineReadBack(rs, format, k);
    }
  }
}
