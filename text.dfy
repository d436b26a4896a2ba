/**
 * The string primitives of the .NET base library the program relies on:
 * `char.IsWhiteSpace`, `string.Trim()`, `string.Split()` with no
 * separators, and joining fields with a separator as the matrix writer does.
 */
module Text {

  /**
   * `char.IsWhiteSpace`: the Unicode space, line and paragraph separators,
   * the control characters U+0009 to U+000D, and U+0085.
   */
  predicate IsWhiteSpace(c: char) {
    || c == ' '
    || ('\t' <= c <= '\r')
    || c == '\U{85}'
    || c == '\U{A0}'
    || c == '\U{1680}'
    || ('\U{2000}' <= c <= '\U{200A}')
    || c == '\U{2028}'
    || c == '\U{2029}'
    || c == '\U{202F}'
    || c == '\U{205F}'
    || c == '\U{3000}'
  }

  predicate IsTab(c: char) {
    c == '\t'
  }

  /** No character of `s` is a separator. */
  predicate NoneWhere(s: string, isSep: char -> bool) {
    forall i :: 0 <= i < |s| ==> !isSep(s[i])
  }

  /** Ordinal `string.StartsWith`. */
  predicate StartsWith(s: string, prefix: string) {
    |prefix| <= |s| && s[..|prefix|] == prefix
  }

  /** `string.TrimStart()`: drops the leading white space. */
  function TrimStart(s: string): (r: string)
    ensures |r| <= |s| && r == s[|s| - |r|..]
    ensures forall i :: 0 <= i < |s| - |r| ==> IsWhiteSpace(s[i])
    ensures r != [] ==> !IsWhiteSpace(r[0])
  {
    if s != [] && IsWhiteSpace(s[0]) then TrimStart(s[1..]) else s
  }

  /** `string.TrimEnd()`: drops the trailing white space. */
  function TrimEnd(s: string): (r: string)
    ensures |r| <= |s| && r == s[..|r|]
    ensures forall i :: |r| <= i < |s| ==> IsWhiteSpace(s[i])
    ensures r != [] ==> !IsWhiteSpace(r[|r| - 1])
  {
    if s != [] && IsWhiteSpace(s[|s| - 1]) then TrimEnd(s[..|s| - 1]) else s
  }

  /** `string.Trim()`: drops the leading and the trailing white space. */
  function Trim(s: string): (r: string)
    ensures r != [] ==> !IsWhiteSpace(r[0]) && !IsWhiteSpace(r[|r| - 1])
  {
    var t := TrimStart(s);
    var r := TrimEnd(t);
    assert r != [] ==> r[0] == t[0];
    r
  }

  /**
   * `Trim` keeps exactly the stretch `s[i..j]` that is surrounded by white
   * space only and neither starts nor ends with white space.
   */
  lemma TrimKeepsCore(s: string, i: nat, j: nat)
    requires i <= j <= |s|
    requires forall k :: 0 <= k < i ==> IsWhiteSpace(s[k])
    requires forall k :: j <= k < |s| ==> IsWhiteSpace(s[k])
    requires i < j ==> !IsWhiteSpace(s[i]) && !IsWhiteSpace(s[j - 1])
    ensures Trim(s) == s[i..j]
  {
    var t := TrimStart(s);
    if i < j {
      assert |s| - |t| == i;
      assert |TrimEnd(t)| == j - i;
    } else {
      assert t == [];
    }
  }

  /**
   * `string.Split`: the pieces of `s` between separator characters; two
   * adjacent separators give an empty piece, and a string without
   * separators is one piece.
   */
  function Split(s: string, isSep: char -> bool): (r: seq<string>)
    ensures |r| >= 1
  {
    if s == [] then [""]
    else
      var init := Split(s[..|s| - 1], isSep);
      var c := s[|s| - 1];
      if isSep(c) then
        init + [""]
      else
        init[..|init| - 1] + [init[|init| - 1] + [c]]
  }

  /** No piece holds a separator. */
  lemma {:induction false} SplitPiecesClean(s: string, isSep: char -> bool)
    ensures forall k :: 0 <= k < |Split(s, isSep)| ==> NoneWhere(Split(s, isSep)[k], isSep)
    decreases |s|
  {
    if s != [] {
      var p, c := s[..|s| - 1], s[|s| - 1];
      var init := Split(p, isSep);
      SplitPiecesClean(p, isSep);
      if !isSep(c) {
        var piece := init[|init| - 1];
        var last := piece + [c];
        assert NoneWhere(last, isSep) by {
          forall i | 0 <= i < |last| ensures !isSep(last[i]) {
            if i < |piece| {
              assert last[i] == piece[i];
            }
          }
        }
        var r := init[..|init| - 1] + [last];
        forall k | 0 <= k < |r| ensures NoneWhere(r[k], isSep) {
          if k < |init| - 1 {
            assert r[k] == init[k];
          }
        }
      }
    }
  }

  /** The first piece is the part of `s` before its first separator. */
  lemma {:induction false} SplitFirst(s: string, isSep: char -> bool)
    ensures var first := Split(s, isSep)[0];
      |first| <= |s| && first == s[..|first|] && (|first| < |s| ==> isSep(s[|first|]))
    decreases |s|
  {
    if s != [] {
      var p, c := s[..|s| - 1], s[|s| - 1];
      var init := Split(p, isSep);
      assert Split(s, isSep) == if isSep(c) then init + [""] else init[..|init| - 1] + [init[|init| - 1] + [c]];
      SplitFirst(p, isSep);
      var first := init[0];
      assert s[..|first|] == p[..|first|];
      if |first| < |p| {
        assert s[|first|] == p[|first|];
      }
      if isSep(c) {
        assert Split(s, isSep)[0] == first;
      } else if |init| == 1 {
        assert first == p by {
          SplitOne(p, isSep);
        }
        assert Split(s, isSep) == [p + [c]];
        assert p + [c] == s;
      } else {
        assert |first| < |p| by {
          SplitOne(p, isSep);
          SplitPiecesClean(p, isSep);
          assert NoneWhere(init[0], isSep);
        }
        assert Split(s, isSep)[0] == first;
      }
    }
  }

  lemma NoneWhereLast(s: string, isSep: char -> bool)
    requires s != []
    ensures NoneWhere(s, isSep) <==> NoneWhere(s[..|s| - 1], isSep) && !isSep(s[|s| - 1])
  {
    var p := s[..|s| - 1];
    assert forall k :: 0 <= k < |p| ==> p[k] == s[k];
  }

  /** There is one piece exactly when `s` holds no separator. */
  lemma {:induction false} SplitOne(s: string, isSep: char -> bool)
    ensures |Split(s, isSep)| == 1 <==> NoneWhere(s, isSep)
    decreases |s|
  {
    if s != [] {
      var p, c := s[..|s| - 1], s[|s| - 1];
      var init := Split(p, isSep);
      SplitOne(p, isSep);
      NoneWhereLast(s, isSep);
      if isSep(c) {
        assert Split(s, isSep) == init + [""];
      } else {
        assert Split(s, isSep) == init[..|init| - 1] + [init[|init| - 1] + [c]];
      }
    }
  }

  /** A string without separators is one piece, itself. */
  lemma {:induction false} SplitNone(s: string, isSep: char -> bool)
    requires NoneWhere(s, isSep)
    ensures Split(s, isSep) == [s]
    decreases |s|
  {
    if s != [] {
      var p, c := s[..|s| - 1], s[|s| - 1];
      NoneWhereLast(s, isSep);
      SplitNone(p, isSep);
      assert Split(s, isSep) == [p + [c]];
      assert p + [c] == s;
    }
  }

  /** `string.Split()` with no separators given splits on white space. */
  function SplitOnWhiteSpace(s: string): (r: seq<string>)
    ensures |r| >= 1
  {
    Split(s, IsWhiteSpace)
  }

  /** The fields with one separator between each two. */
  function Join(fields: seq<string>, sep: char): string
    requires |fields| >= 1
  {
    if |fields| == 1 then fields[0]
    else Join(fields[..|fields| - 1], sep) + [sep] + fields[|fields| - 1]
  }

  lemma JoinStep(fields: seq<string>, x: string, sep: char)
    requires |fields| >= 1
    ensures Join(fields + [x], sep) == Join(fields, sep) + [sep] + x
  {
    assert (fields + [x])[..|fields|] == fields;
  }

  lemma {:induction false} SplitAfterSeparator(a: string, sep: char, b: string, isSep: char -> bool)
    requires isSep(sep) && NoneWhere(b, isSep)
    ensures Split(a + [sep] + b, isSep) == Split(a, isSep) + [b]
    decreases |b|
  {
    var s := a + [sep] + b;
    if b == [] {
      assert s[..|s| - 1] == a && s[|s| - 1] == sep;
    } else {
      var b', c := b[..|b| - 1], b[|b| - 1];
      assert NoneWhere(b', isSep) by {
        forall i | 0 <= i < |b'| ensures !isSep(b'[i]) {
          assert b'[i] == b[i];
        }
      }
      SplitAfterSeparator(a, sep, b', isSep);
      var init := Split(a, isSep) + [b'];
      assert s[..|s| - 1] == a + [sep] + b' && s[|s| - 1] == c && !isSep(c);
      assert init[..|init| - 1] == Split(a, isSep) && init[|init| - 1] == b';
      assert b' + [c] == b;
    }
  }

  /** Appending one element to the second of two pieces. */
  lemma ConcatSnoc<T>(a: seq<T>, b: seq<T>, x: T)
    ensures a + (b + [x]) == (a + b) + [x]
  {
  }

  /** `Split` extended by one character: a separator opens a new piece, any other character extends the last. */
  lemma SplitSnoc(p: string, c: char, isSep: char -> bool)
    ensures var init := Split(p, isSep);
      Split(p + [c], isSep) == if isSep(c) then init + [""] else init[..|init| - 1] + [init[|init| - 1] + [c]]
  {
    assert (p + [c])[..|p|] == p;
  }

  /** Splitting at a separator character splits the two sides apart. */
  lemma {:induction false} SplitAtSeparator(a: string, sep: char, b: string, isSep: char -> bool)
    requires isSep(sep)
    ensures Split(a + [sep] + b, isSep) == Split(a, isSep) + Split(b, isSep)
    decreases |b|
  {
    if b == [] {
      SplitSnoc(a, sep, isSep);
      assert a + [sep] + b == a + [sep];
    } else {
      var b', c := b[..|b| - 1], b[|b| - 1];
      SplitAtSeparator(a, sep, b', isSep);
      SplitSameStep(a + [sep] + b', b', c, Split(a, isSep), isSep);
      ConcatSnoc(a + [sep], b', c);
      assert b' + [c] == b;
    }
  }

  /** Two strings whose splits end alike keep ending alike when the same character is appended. */
  lemma SplitSameStep(s: string, b: string, c: char, left: seq<string>, isSep: char -> bool)
    requires Split(s, isSep) == left + Split(b, isSep)
    ensures Split(s + [c], isSep) == left + Split(b + [c], isSep)
  {
    SplitSnoc(s, c, isSep);
    SplitSnoc(b, c, isSep);
    PiecesStep(Split(s, isSep), Split(s + [c], isSep), left, Split(b, isSep), Split(b + [c], isSep), c, isSep(c));
  }

  /**
   * Opening a new piece, or extending the last one, commutes with a fixed
   * list of pieces before it.
   */
  lemma PiecesStep(whole: seq<string>, whole': seq<string>, left: seq<string>, right: seq<string>, right': seq<string>,
                   c: char, opens: bool)
    requires whole == left + right && right != []
    requires whole' == if opens then whole + [""] else whole[..|whole| - 1] + [whole[|whole| - 1] + [c]]
    requires right' == if opens then right + [""] else right[..|right| - 1] + [right[|right| - 1] + [c]]
    ensures whole' == left + right'
  {
    if opens {
      assert left + right + [""] == left + (right + [""]);
    } else {
      assert whole[..|whole| - 1] == left + right[..|right| - 1];
    }
  }

  /**
   * Splitting undoes joining, when the separator is one the split breaks at
   * and no field holds such a character.
   */
  lemma {:induction false} SplitJoin(fields: seq<string>, sep: char, isSep: char -> bool)
    requires |fields| >= 1 && isSep(sep)
    requires forall k :: 0 <= k < |fields| ==> NoneWhere(fields[k], isSep)
    ensures Split(Join(fields, sep), isSep) == fields
    decreases |fields|
  {
    if |fields| == 1 {
      SplitNone(fields[0], isSep);
    } else {
      var init, last := fields[..|fields| - 1], fields[|fields| - 1];
      assert forall k :: 0 <= k < |init| ==> NoneWhere(init[k], isSep) by {
        forall k | 0 <= k < |init| ensures init[k] == fields[k] { }
      }
      SplitJoin(init, sep, isSep);
      assert init + [last] == fields;
      JoinStep(init, last, sep);
      SplitAfterSeparator(Join(init, sep), sep, last, isSep);
    }
  }
}
