/**
 The referential-integrity check: which rows of a foreign-key column hold a
 value that the referenced key column does not contain.
 */
module Integrity {
  import opened Tables
  import opened Findings

  /** `fk_values[~fk_values.isin(pk_values)]`: the foreign-key cells, row by
      row and in order, whose value does not occur in the key column. A missing
      value is looked up like any other: it is kept unless the key column also
      holds a missing value. */
  function Missing(fk: Column, pk: Column): (m: Column)
    ensures |m| <= |fk|
    ensures forall x :: x in m ==> x in fk && x !in pk
  {
    if fk == [] then []
    else (if fk[0] in pk then [] else [fk[0]]) + Missing(fk[1..], pk)
  }

  /** Each value absent from the key column is kept once per row that holds
      it; every other value is dropped. */
  lemma {:induction false} MissingPerValue(fk: Column, pk: Column)
    ensures forall v :: multiset(Missing(fk, pk))[v] == if v in pk then 0 else multiset(fk)[v]
  {
    if fk != [] {
      assert fk == [fk[0]] + fk[1..];
      MissingPerValue(fk[1..], pk);
    }
  }

  /** `check_fk`: skips when either column is unavailable; otherwise counts the
      foreign-key rows whose value is absent from the key column, and reports
      the column valid exactly when there are none. */
  function CheckFk(tableName: string, fkColumn: string, fkValues: Option<Column>,
                   pkColumn: string, pkValues: Option<Column>): (f: Finding)
    ensures f.FkSkipped? || f.FkMissing? || f.FkValid?
    ensures f.table == tableName
    ensures f.FkSkipped? <==> fkValues.None? || pkValues.None?
    ensures !f.FkSkipped? ==> f.fkColumn == fkColumn
    ensures f.FkValid? <==>
      && fkValues.Some? && pkValues.Some?
      && forall i :: 0 <= i < |fkValues.value| ==> fkValues.value[i] in pkValues.value
    ensures f.FkMissing? ==>
      && f.pkColumn == pkColumn
      && f.count == |Missing(fkValues.value, pkValues.value)|
      && f.count > 0
  {
    if fkValues.None? || pkValues.None? then FkSkipped(tableName)
    else
      var missing := Missing(fkValues.value, pkValues.value);
      if missing != [] then
        assert missing[0] in missing;
        FkMissing(tableName, fkColumn, |missing|, pkColumn)
      else
        assert forall i :: 0 <= i < |fkValues.value| ==> fkValues.value[i] in pkValues.value by {
          MissingPerValue(fkValues.value, pkValues.value);
          forall i | 0 <= i < |fkValues.value| ensures fkValues.value[i] in pkValues.value {
            var v := fkValues.value[i];
            assert multiset(missing)[v] == 0;
            assert multiset(fkValues.value)[v] > 0;
          }
        }
        FkValid(tableName, fkColumn)
  }

  /** The positions of the foreign-key rows whose value the key column lacks. */
  function OffendingRows(fk: Column, pk: Column): set<nat>
  {
    set i: nat | i < |fk| && fk[i] !in pk
  }

  /** The offending cells of two stacked columns are those of each, in order. */
  lemma {:induction false} MissingConcat(a: Column, b: Column, pk: Column)
    ensures Missing(a + b, pk) == Missing(a, pk) + Missing(b, pk)
  {
    if a != [] {
      var head := if a[0] in pk then [] else [a[0]];
      assert (a + b)[0] == a[0];
      assert (a + b)[1..] == a[1..] + b;
      assert Missing(a + b, pk) == head + Missing(a[1..] + b, pk);
      MissingConcat(a[1..], b, pk);
      assert Missing(a, pk) == head + Missing(a[1..], pk);
    } else {
      assert a + b == b;
    }
  }

  /** The missing count is the number of offending rows, not of distinct
      offending values. */
  lemma {:induction false} MissingCountsOffendingRows(fk: Column, pk: Column)
    ensures |Missing(fk, pk)| == |OffendingRows(fk, pk)|
    decreases |fk|
  {
    if fk != [] {
      var n := |fk| - 1;
      var init, last := fk[..n], fk[n];
      assert fk == init + [last];
      MissingCountsOffendingRows(init, pk);
      MissingConcat(init, [last], pk);
      assert Missing([last], pk) == if last in pk then [] else [last] by {
        assert [last][1..] == [];
      }
      if last in pk {
        assert OffendingRows(fk, pk) == OffendingRows(init, pk);
      } else {
        assert OffendingRows(fk, pk) == OffendingRows(init, pk) + {n};
        assert n !in OffendingRows(init, pk);
      }
    } else {
      assert OffendingRows(fk, pk) == {};
    }
  }

  /** The missing count depends only on the multiset of foreign-key values and
      on the set of key values: reordering the rows of either column leaves it
      unchanged. */
  lemma MissingCountPermutationInvariant(fk1: Column, fk2: Column, pk1: Column, pk2: Column)
    requires multiset(fk1) == multiset(fk2)
    requires multiset(pk1) == multiset(pk2)
    ensures |Missing(fk1, pk1)| == |Missing(fk2, pk2)|
  {
    var m1, m2 := Missing(fk1, pk1), Missing(fk2, pk2);
    MissingPerValue(fk1, pk1);
    MissingPerValue(fk2, pk2);
    forall v ensures multiset(m1)[v] == multiset(m2)[v] {
      assert v in pk1 <==> v in multiset(pk1);
      assert v in pk2 <==> v in multiset(pk2);
    }
    assert multiset(m1) == multiset(m2);
    assert |m1| == |multiset(m1)| == |multiset(m2)| == |m2|;
  }

  /** The outcome of `check_fk` on two available columns is the same for every
      ordering of their rows. */
  lemma CheckFkPermutationInvariant(tableName: string, fkColumn: string, pkColumn: string,
                                    fk1: Column, fk2: Column, pk1: Column, pk2: Column)
    requires multiset(fk1) == multiset(fk2)
    requires multiset(pk1) == multiset(pk2)
    ensures CheckFk(tableName, fkColumn, Some(fk1), pkColumn, Some(pk1)) ==
            CheckFk(tableName, fkColumn, Some(fk2), pkColumn, Some(pk2))
  {
    MissingCountPermutationInvariant(fk1, fk2, pk1, pk2);
  }

  /** Key values {P1, P2, P3} and foreign-key values [P1, P2, P4]: one missing reference. */
  lemma OneMissingReference()
    ensures CheckFk("encounters", "PATIENT", Some([Str("P1"), Str("P2"), Str("P4")]),
                    "Id", Some([Str("P1"), Str("P2"), Str("P3")]))
         == FkMissing("encounters", "PATIENT", 1, "Id")
  {
    var pk := [Str("P1"), Str("P2"), Str("P3")];
    assert Str("P4") !in pk;
    assert Missing([Str("P1"), Str("P2"), Str("P4")], pk) == [Str("P4")];
  }

  /** An offending value repeated on two rows is counted twice. */
  lemma RepeatedOffenderCountedPerRow()
    ensures CheckFk("t", "c", Some([Str("X"), Str("X")]), "Id", Some([Str("P1")]))
         == FkMissing("t", "c", 2, "Id")
  {
    assert Str("X") !in [Str("P1")];
    assert Missing([Str("X"), Str("X")], [Str("P1")]) == [Str("X"), Str("X")];
  }

  /** A missing foreign-key value counts as a missing reference unless the key
      column also holds a missing value. */
  lemma NullForeignKeyMissingUnlessKeyHasNull(pk: Column)
    ensures CheckFk("t", "c", Some([Null]), "Id", Some(pk)) ==
      if Null in pk then FkValid("t", "c") else FkMissing("t", "c", 1, "Id")
  {
    assert [Null][1..] == [];
  }
}
