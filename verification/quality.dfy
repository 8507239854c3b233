/**
 The single-table checks of the cleaning script: missing values per column,
 repeated primary-key values, and identifier syntax.
 */
module Quality {
  import opened Tables
  import opened Findings

  // ---------------------------------------------------------------------------
  // Missing values: `table.isnull().sum()` and the columns where it is non-zero

  /** The number of missing cells in a column. */
  function NullCount(c: Column): (n: nat)
    ensures n == multiset(c)[Null]
  {
    if c == [] then 0
    else
      assert c == [c[0]] + c[1..];
      (if c[0] == Null then 1 else 0) + NullCount(c[1..])
  }

  /** `null_counts[null_counts > 0]`: each column holding a missing value,
      paired with how many it holds, in column order. */
  function NullColumns(names: seq<string>, cols: seq<Column>): (r: seq<(string, nat)>)
    requires |names| == |cols|
    ensures |r| <= |names|
    ensures forall p :: p in r <==>
      exists k :: 0 <= k < |names| && p == (names[k], multiset(cols[k])[Null]) && p.1 > 0
  {
    if names == [] then []
    else
      var n := NullCount(cols[0]);
      var rest := NullColumns(names[1..], cols[1..]);
      var r := (if n > 0 then [(names[0], n)] else []) + rest;
      assert forall p :: p in r <==>
        exists k :: 0 <= k < |names| && p == (names[k], multiset(cols[k])[Null]) && p.1 > 0 by {
        forall p
          ensures p in r ==> exists k :: 0 <= k < |names| && p == (names[k], multiset(cols[k])[Null]) && p.1 > 0
        {
          if p in r && p !in rest {
            assert p == (names[0], multiset(cols[0])[Null]);
          } else if p in rest {
            var k :| 0 <= k < |names[1..]| && p == (names[1..][k], multiset(cols[1..][k])[Null]) && p.1 > 0;
            assert p == (names[k + 1], multiset(cols[k + 1])[Null]);
          }
        }
        forall p, k | 0 <= k < |names| && p == (names[k], multiset(cols[k])[Null]) && p.1 > 0
          ensures p in r
        {
          if k > 0 {
            assert p == (names[1..][k - 1], multiset(cols[1..][k - 1])[Null]);
          }
        }
      }
      r
  }

  /** `check_nulls`: reports every column that holds a missing value, with its
      exact count, or that the table has none. */
  function CheckNulls(t: Table, tableName: string): (f: Finding)
    ensures f.NullsFound? || f.NoNulls?
    ensures f.table == tableName
    ensures f.NoNulls? <==> forall k :: 0 <= k < |t.cols| ==> Null !in t.cols[k]
    ensures f.NullsFound? ==> forall p :: p in f.counts <==>
      exists k :: 0 <= k < |t.names| && p == (t.names[k], multiset(t.cols[k])[Null]) && p.1 > 0
  {
    var counts := NullColumns(t.names, t.cols);
    if counts != [] then
      assert counts[0] in counts;
      var k :| 0 <= k < |t.names| && counts[0] == (t.names[k], multiset(t.cols[k])[Null]) && counts[0].1 > 0;
      assert Null in t.cols[k];
      NullsFound(tableName, counts)
    else
      assert forall k :: 0 <= k < |t.cols| ==> Null !in t.cols[k] by {
        forall k | 0 <= k < |t.cols| ensures Null !in t.cols[k] {
          assert (t.names[k], multiset(t.cols[k])[Null]) !in counts;
        }
      }
      NoNulls(tableName)
  }

  /** The null report depends on each column's multiset of cells only. */
  lemma {:induction false} NullColumnsPermutationInvariant(names: seq<string>, cols1: seq<Column>, cols2: seq<Column>)
    requires |names| == |cols1| == |cols2|
    requires forall k :: 0 <= k < |cols1| ==> multiset(cols1[k]) == multiset(cols2[k])
    ensures NullColumns(names, cols1) == NullColumns(names, cols2)
  {
    if names != [] {
      NullColumnsPermutationInvariant(names[1..], cols1[1..], cols2[1..]);
    }
  }

  /** Reordering the rows of a table, or of any of its columns, leaves the
      null report unchanged. */
  lemma CheckNullsPermutationInvariant(t1: Table, t2: Table, tableName: string)
    requires t1.names == t2.names
    requires forall k :: 0 <= k < |t1.cols| ==> multiset(t1.cols[k]) == multiset(t2.cols[k])
    ensures CheckNulls(t1, tableName) == CheckNulls(t2, tableName)
  {
    NullColumnsPermutationInvariant(t1.names, t1.cols, t2.cols);
  }

  // ---------------------------------------------------------------------------
  // Duplicates: `table.duplicated(subset=[pk]).sum() > 0`

  /** pandas `duplicated(keep="first")`, computed as pandas does it: walk the
      column remembering the values seen so far; a row is marked when its
      value was seen before. */
  function MarkDuplicates(c: Column, seen: set<Cell>): (m: seq<bool>)
    ensures |m| == |c|
    ensures forall i :: 0 <= i < |c| ==> (m[i] <==> c[i] in seen || c[i] in c[..i])
  {
    if c == [] then []
    else
      var rest := MarkDuplicates(c[1..], seen + {c[0]});
      assert forall i :: 1 <= i < |c| ==> c[..i] == [c[0]] + c[1..][..i - 1];
      [c[0] in seen] + rest
  }

  /** The duplicate mask of a column: row `i` is marked iff an earlier row
      holds the same value, so the first occurrence is never marked. */
  function Duplicated(c: Column): (m: seq<bool>)
    ensures |m| == |c|
    ensures forall i :: 0 <= i < |c| ==> (m[i] <==> exists j :: 0 <= j < i && c[j] == c[i])
  {
    var m := MarkDuplicates(c, {});
    assert forall i :: 0 <= i < |c| ==> (c[i] in c[..i] <==> exists j :: 0 <= j < i && c[j] == c[i]) by {
      forall i | 0 <= i < |c| ensures c[i] in c[..i] <==> exists j :: 0 <= j < i && c[j] == c[i] {
        if c[i] in c[..i] {
          var j :| 0 <= j < i && c[..i][j] == c[i];
        }
      }
    }
    m
  }

  /** The number of `true` entries: pandas `.sum()` on a boolean series. */
  function CountTrue(m: seq<bool>): (n: nat)
    ensures n <= |m|
    ensures n > 0 <==> exists i :: 0 <= i < |m| && m[i]
  {
    if m == [] then 0
    else
      var rest := CountTrue(m[1..]);
      assert (exists i :: 0 <= i < |m[1..]| && m[1..][i]) <==> (exists i :: 1 <= i < |m| && m[i]) by {
        if exists i :: 1 <= i < |m| && m[i] {
          var i :| 1 <= i < |m| && m[i];
          assert m[1..][i - 1];
        }
      }
      (if m[0] then 1 else 0) + rest
  }

  /** `duplicated(subset=[pk]).sum()`: the number of rows that repeat an earlier value. */
  function DuplicateCount(c: Column): nat
  {
    CountTrue(Duplicated(c))
  }

  /** Each marked row repeats a value already seen; each unmarked row adds a
      new one to the values seen. */
  lemma {:induction false} MarkDuplicatesCount(c: Column, seen: set<Cell>)
    ensures CountTrue(MarkDuplicates(c, seen)) + |seen + Elems(c)| == |c| + |seen|
    decreases |c|
  {
    if c != [] {
      var seen' := seen + {c[0]};
      MarkDuplicatesCount(c[1..], seen');
      assert c == [c[0]] + c[1..];
      assert seen' + Elems(c[1..]) == seen + Elems(c);
      assert MarkDuplicates(c, seen)[1..] == MarkDuplicates(c[1..], seen');
      if c[0] in seen {
        assert seen' == seen;
      } else {
        assert |seen'| == |seen| + 1;
      }
    }
  }

  /** Every row after the first occurrence of its value is counted, so the
      duplicate count is the row count minus the number of distinct values. */
  lemma DuplicateCountIsRowsMinusDistinct(c: Column)
    ensures DuplicateCount(c) == |c| - |Elems(c)|
  {
    MarkDuplicatesCount(c, {});
    assert {} + Elems(c) == Elems(c);
  }

  /** The duplicate count depends on the multiset of key values only. */
  lemma DuplicateCountPermutationInvariant(c1: Column, c2: Column)
    requires multiset(c1) == multiset(c2)
    ensures DuplicateCount(c1) == DuplicateCount(c2)
  {
    DuplicateCountIsRowsMinusDistinct(c1);
    DuplicateCountIsRowsMinusDistinct(c2);
    assert Elems(c1) == Elems(c2) by {
      forall x ensures x in c1 <==> x in c2 {
        assert x in c1 <==> x in multiset(c1);
        assert x in c2 <==> x in multiset(c2);
      }
    }
    assert |c1| == |multiset(c1)| == |multiset(c2)| == |c2|;
  }

  /** `check_duplicates`: flags the key column exactly when two rows share a value. */
  function CheckDuplicates(t: Table, tableName: string, pkColumn: string): (f: Finding)
    requires pkColumn in t.names
    ensures f.DuplicatesFound? || f.NoDuplicates?
    ensures f.table == tableName && f.column == pkColumn
    ensures f.DuplicatesFound? <==>
      exists i, j :: 0 <= i < j < t.rows && Col(t, pkColumn)[i] == Col(t, pkColumn)[j]
    ensures t.rows <= 1 ==> f.NoDuplicates?
  {
    var c := Col(t, pkColumn);
    if DuplicateCount(c) > 0 then DuplicatesFound(tableName, pkColumn)
    else NoDuplicates(tableName, pkColumn)
  }

  /** A key column is flagged exactly when it has fewer distinct values than rows. */
  lemma DuplicatesFlaggedIffFewerDistinct(t: Table, tableName: string, pkColumn: string)
    requires pkColumn in t.names
    ensures CheckDuplicates(t, tableName, pkColumn).DuplicatesFound? <==>
      |Elems(Col(t, pkColumn))| < t.rows
  {
    DuplicateCountIsRowsMinusDistinct(Col(t, pkColumn));
  }

  /** Reordering the rows of the key column leaves the duplicate verdict unchanged. */
  lemma CheckDuplicatesPermutationInvariant(t1: Table, t2: Table, tableName: string, pkColumn: string)
    requires pkColumn in t1.names && pkColumn in t2.names
    requires multiset(Col(t1, pkColumn)) == multiset(Col(t2, pkColumn))
    ensures CheckDuplicates(t1, tableName, pkColumn) == CheckDuplicates(t2, tableName, pkColumn)
  {
    DuplicateCountPermutationInvariant(Col(t1, pkColumn), Col(t2, pkColumn));
  }

  // ---------------------------------------------------------------------------
  // Identifier syntax: `table[col].astype(str).str.match(r'^[A-Za-z0-9\-]+$').all()`

  /** A character of the class `[A-Za-z0-9\-]`. */
  predicate IsIdChar(ch: char)
  {
    ('A' <= ch <= 'Z') || ('a' <= ch <= 'z') || ('0' <= ch <= '9') || ch == '-'
  }

  /** A non-empty string of ASCII letters, digits and hyphens. */
  predicate IsIdentifier(s: string)
  {
    |s| > 0 && forall i :: 0 <= i < |s| ==> IsIdChar(s[i])
  }

  /** How many characters the greedy `[A-Za-z0-9\-]+` consumes from the start of `s`. */
  function IdRunLength(s: string): (k: nat)
    ensures k <= |s|
    ensures forall i :: 0 <= i < k ==> IsIdChar(s[i])
    ensures k < |s| ==> !IsIdChar(s[k])
  {
    if s == [] || !IsIdChar(s[0]) then 0 else 1 + IdRunLength(s[1..])
  }

  /** Python's `re.match(r'^[A-Za-z0-9\-]+$', s)`: a run of at least one
      identifier character, then the end of the string — or a single final
      newline, before which Python's `$` also matches. */
  predicate MatchesIdPattern(s: string)
  {
    var k := IdRunLength(s);
    k >= 1 && (k == |s| || (k == |s| - 1 && s[k] == '\n'))
  }

  /** The pattern accepts exactly the identifiers, with or without one trailing newline. */
  lemma MatchesIdPatternIff(s: string)
    ensures MatchesIdPattern(s) <==>
      IsIdentifier(s) || (|s| > 0 && s[|s| - 1] == '\n' && IsIdentifier(s[..|s| - 1]))
  {
    var k := IdRunLength(s);
    if MatchesIdPattern(s) && k < |s| {
      var init := s[..|s| - 1];
      forall i | 0 <= i < |init| ensures IsIdChar(init[i]) {
        assert init[i] == s[i];
      }
    }
    if IsIdentifier(s) {
      assert k == |s|;
    }
    if |s| > 0 && s[|s| - 1] == '\n' && IsIdentifier(s[..|s| - 1]) {
      forall i | 0 <= i < |s| - 1 ensures IsIdChar(s[i]) {
        assert s[..|s| - 1][i] == s[i];
      }
      assert !IsIdChar(s[|s| - 1]);
      assert k == |s| - 1;
    }
  }

  /** `astype(str)` on one cell: a missing value becomes the text "nan". */
  function AsText(c: Cell): string
  {
    match c
    case Null => "nan"
    case Str(s) => s
  }

  /** Every value of the column, as text, matches the identifier pattern. */
  predicate ColumnWellFormed(c: Column)
  {
    forall i :: 0 <= i < |c| ==> MatchesIdPattern(AsText(c[i]))
  }

  /** `check_data_types`: one finding per listed column that holds a value
      not matching the identifier pattern, in the order the columns are listed;
      nothing for columns that pass. */
  function CheckDataTypes(t: Table, tableName: string, idColumns: seq<string>): (r: seq<Finding>)
    requires forall c :: c in idColumns ==> c in t.names
    ensures |r| <= |idColumns|
    ensures forall f :: f in r ==>
      && f.InvalidCharacters? && f.table == tableName
      && f.column in idColumns
      && !ColumnWellFormed(Col(t, f.column))
    ensures forall c :: c in idColumns && !ColumnWellFormed(Col(t, c)) ==>
      InvalidCharacters(tableName, c) in r
    ensures t.rows == 0 ==> r == []
  {
    if idColumns == [] then []
    else
      var col := idColumns[0];
      var rest := CheckDataTypes(t, tableName, idColumns[1..]);
      if ColumnWellFormed(Col(t, col)) then rest
      else
        [InvalidCharacters(tableName, col)] + rest
  }

  /** No element occurs twice. */
  predicate Distinct<T(==)>(s: seq<T>)
  {
    forall i, j :: 0 <= i < j < |s| ==> s[i] != s[j]
  }

  /** When the listed columns are distinct, no column is flagged twice. */
  lemma {:induction false} CheckDataTypesFlagsEachColumnOnce(t: Table, tableName: string, idColumns: seq<string>)
    requires forall c :: c in idColumns ==> c in t.names
    requires Distinct(idColumns)
    ensures Distinct(CheckDataTypes(t, tableName, idColumns))
  {
    if idColumns != [] {
      var col, tail := idColumns[0], idColumns[1..];
      assert Distinct(tail) by {
        forall i, j | 0 <= i < j < |tail| ensures tail[i] != tail[j] {
          assert tail[i] == idColumns[i + 1] && tail[j] == idColumns[j + 1];
        }
      }
      CheckDataTypesFlagsEachColumnOnce(t, tableName, tail);
      var rest := CheckDataTypes(t, tableName, tail);
      if !ColumnWellFormed(Col(t, col)) {
        var f := InvalidCharacters(tableName, col);
        assert col !in tail;
        assert f !in rest;
        DistinctCons(f, rest);
      }
    }
  }

  /** Putting a new element in front keeps a sequence free of repeats. */
  lemma DistinctCons<T>(x: T, s: seq<T>)
    requires Distinct(s) && x !in s
    ensures Distinct([x] + s)
  {
    var r := [x] + s;
    forall i, j | 0 <= i < j < |r| ensures r[i] != r[j] {
      assert r[j] == s[j - 1];
      if i > 0 {
        assert r[i] == s[i - 1];
      }
    }
  }

  /** A missing value is checked as the text "nan", which passes. */
  lemma NullPassesFormatCheck()
    ensures ColumnWellFormed([Null])
  {
    assert IdRunLength("nan") == 3;
  }

  /** Python's `$` matches before a final newline, so "P1\n" passes. */
  lemma TrailingNewlinePassesFormatCheck()
    ensures ColumnWellFormed([Str("P1\n")])
  {
    assert IdRunLength("P1\n") == 2;
  }

  /** A value with a space, such as "abc 123", fails. */
  lemma SpaceFailsFormatCheck()
    ensures !ColumnWellFormed([Str("abc 123")])
  {
    assert IdRunLength("abc 123") == 3;
    assert !MatchesIdPattern(AsText([Str("abc 123")][0]));
  }
}
