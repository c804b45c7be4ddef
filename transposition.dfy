/** Reference definitions for the two ways a CSC block is built from entries
    that are not already grouped by column: transposing a row-major source
    (row -> list of (column, value)), and locating the column boundaries of a
    list of triples sorted by column. */
module Transposition {
  import opened CscLayout

  /** The entries of row `i` that lie in column `c`, relabelled with their
      row index `i`, in the order the row stores them. */
  function RowPart(i: int, row: seq<Cell>, c: int): seq<Cell>
  {
    if |row| == 0 then []
    else RowPart(i, row[..|row| - 1], c)
         + (if row[|row| - 1].index == c then [Cell(i, row[|row| - 1].value)] else [])
  }

  /** Column `c` of a row-major source: its entries as (row, value), rows in
      the order they are visited. */
  function ColumnOf(rows: seq<seq<Cell>>, c: int): seq<Cell>
  {
    if |rows| == 0 then []
    else ColumnOf(rows[..|rows| - 1], c) + RowPart(|rows| - 1, rows[|rows| - 1], c)
  }

  /** The column-major view of a row-major source with `clen` columns. */
  function Transpose(rows: seq<seq<Cell>>, clen: nat): seq<seq<Cell>>
  {
    seq(clen, c => ColumnOf(rows, c))
  }

  /** Scanning one more entry of row `i` extends its part in column `c` by
      that entry when it lies in `c`, and by nothing otherwise. */
  lemma RowPartStep(i: int, row: seq<Cell>, k: nat, c: int)
    requires k < |row|
    ensures RowPart(i, row[..k + 1], c)
            == RowPart(i, row[..k], c) + (if row[k].index == c then [Cell(i, row[k].value)] else [])
  {
    assert row[..k + 1][..k] == row[..k];
  }

  /** Scanning one more whole row appends its part to every column. */
  lemma ColumnOfStep(rows: seq<seq<Cell>>, i: nat, c: int)
    requires i < |rows|
    ensures ColumnOf(rows[..i + 1], c) == ColumnOf(rows[..i], c) + RowPart(i, rows[i], c)
  {
    assert rows[..i + 1][..i] == rows[..i];
  }

  /** Every column index named by the source lies in `[0, clen)`. */
  predicate ColumnsInRange(rows: seq<seq<Cell>>, clen: int)
  {
    forall i, k :: 0 <= i < |rows| && 0 <= k < |rows[i]| ==> 0 <= rows[i][k].index < clen
  }

  /** No row names the same column twice. */
  predicate DistinctColumns(rows: seq<seq<Cell>>)
  {
    forall i, a, b :: 0 <= i < |rows| && 0 <= a < b < |rows[i]| ==> rows[i][a].index != rows[i][b].index
  }

  lemma {:induction false} RowPartRow(i: int, row: seq<Cell>, c: int)
    ensures forall k :: 0 <= k < |RowPart(i, row, c)| ==> RowPart(i, row, c)[k].index == i
  {
    if |row| > 0 {
      RowPartRow(i, row[..|row| - 1], c);
    }
  }

  /** An entry lies in the relabelled part of a row exactly when the row holds
      that value in column `c`. */
  lemma {:induction false} RowPartMember(i: int, row: seq<Cell>, c: int, v: real)
    ensures Cell(i, v) in RowPart(i, row, c) <==> Cell(c, v) in row
  {
    if |row| > 0 {
      var init := row[..|row| - 1];
      RowPartMember(i, init, c, v);
      assert row == init + [row[|row| - 1]];
    }
  }

  lemma {:induction false} RowPartPrefix(i: int, row: seq<Cell>, k: nat, c: int)
    requires k <= |row|
    ensures |RowPart(i, row[..k], c)| <= |RowPart(i, row, c)|
  {
    if k < |row| {
      assert row[..k] == row[..|row| - 1][..k];
      RowPartPrefix(i, row[..|row| - 1], k, c);
    } else {
      assert row[..k] == row;
    }
  }

  /** If a row names column `c` at most once, its part in column `c` has at
      most one entry. */
  lemma {:induction false} RowPartAtMostOne(i: int, row: seq<Cell>, c: int)
    requires forall a, b :: 0 <= a < b < |row| ==> row[a].index != row[b].index
    ensures |RowPart(i, row, c)| <= 1
  {
    if |row| > 0 {
      var init := row[..|row| - 1];
      RowPartAtMostOne(i, init, c);
      if row[|row| - 1].index == c && |RowPart(i, init, c)| == 1 {
        RowPartWitness(i, init, c);
        assert false;
      }
    }
  }

  lemma {:induction false} RowPartWitness(i: int, row: seq<Cell>, c: int)
    requires |RowPart(i, row, c)| > 0
    ensures exists k :: 0 <= k < |row| && row[k].index == c
  {
    var init := row[..|row| - 1];
    if row[|row| - 1].index != c {
      RowPartWitness(i, init, c);
      var k :| 0 <= k < |init| && init[k].index == c;
      assert row[k].index == c;
    }
  }

  /** Scanning a prefix of the rows, then a prefix of the next row, never
      collects more entries of column `c` than the whole source holds. */
  lemma {:induction false} ColumnOfPrefix(rows: seq<seq<Cell>>, i: nat, k: nat, c: int)
    requires i < |rows| && k <= |rows[i]|
    ensures |ColumnOf(rows[..i], c)| + |RowPart(i, rows[i][..k], c)| <= |ColumnOf(rows, c)|
  {
    RowPartPrefix(i, rows[i], k, c);
    assert rows[..i + 1][..i] == rows[..i];
    ColumnOfPrefixRows(rows, i + 1, c);
  }

  lemma {:induction false} ColumnOfPrefixRows(rows: seq<seq<Cell>>, m: nat, c: int)
    requires m <= |rows|
    ensures |ColumnOf(rows[..m], c)| <= |ColumnOf(rows, c)|
  {
    if m < |rows| {
      assert rows[..m] == rows[..|rows| - 1][..m];
      ColumnOfPrefixRows(rows[..|rows| - 1], m, c);
    } else {
      assert rows[..m] == rows;
    }
  }

  /** Every source entry (row `i`, column `c`, value `v`) lands in column `c`
      with row `i` and value `v`, and column `c` holds nothing else. */
  lemma {:induction false} ColumnOfMember(rows: seq<seq<Cell>>, c: int, i: int, v: real)
    ensures Cell(i, v) in ColumnOf(rows, c) <==> 0 <= i < |rows| && Cell(c, v) in rows[i]
  {
    if |rows| > 0 {
      var n := |rows| - 1;
      var init := rows[..n];
      ColumnOfMember(init, c, i, v);
      RowPartMember(n, rows[n], c, v);
      RowPartRow(n, rows[n], c);
      if Cell(i, v) in RowPart(n, rows[n], c) {
        var k :| 0 <= k < |RowPart(n, rows[n], c)| && RowPart(n, rows[n], c)[k] == Cell(i, v);
        assert i == n;
      }
      if i == n {
        RowPartMember(i, rows[n], c, v);
      }
    }
  }

  /** When no source row names a column twice, every column of the transposed
      view lists its rows strictly increasing, all below the row count. */
  lemma {:induction false} ColumnOfAscending(rows: seq<seq<Cell>>, c: int)
    requires DistinctColumns(rows)
    ensures RowsAscending(ColumnOf(rows, c))
    ensures forall k :: 0 <= k < |ColumnOf(rows, c)| ==> 0 <= ColumnOf(rows, c)[k].index < |rows|
  {
    if |rows| > 0 {
      var n := |rows| - 1;
      var init := rows[..n];
      assert DistinctColumns(init) by {
        forall i, a, b | 0 <= i < |init| && 0 <= a < b < |init[i]|
          ensures init[i][a].index != init[i][b].index
        {
          assert init[i] == rows[i];
        }
      }
      ColumnOfAscending(init, c);
      RowPartRow(n, rows[n], c);
      RowPartAtMostOne(n, rows[n], c);
    }
  }

  /** Number of elements of `s` below `c`. */
  function CountBelow(s: seq<int>, c: int): (r: nat)
    ensures r <= |s|
  {
    if |s| == 0 then 0
    else CountBelow(s[..|s| - 1], c) + (if s[|s| - 1] < c then 1 else 0)
  }

  predicate NonDecreasing(s: seq<int>)
  {
    forall a, b :: 0 <= a <= b < |s| ==> s[a] <= s[b]
  }

  lemma {:induction false} CountBelowAll(s: seq<int>, c: int)
    requires forall t :: 0 <= t < |s| ==> s[t] < c
    ensures CountBelow(s, c) == |s|
  {
    if |s| > 0 {
      CountBelowAll(s[..|s| - 1], c);
    }
  }

  /** In a non-decreasing sequence the elements below `c` form a prefix, and
      `CountBelow` is its length. */
  lemma {:induction false} BelowIsPrefix(s: seq<int>, c: int, t: int)
    requires NonDecreasing(s) && 0 <= t < |s|
    ensures t < CountBelow(s, c) <==> s[t] < c
  {
    var n := |s| - 1;
    var init := s[..n];
    if s[n] < c {
      CountBelowAll(s, c);
    } else if t < n {
      BelowIsPrefix(init, c, t);
    }
  }

  /** `CountBelow(s, c)` is the index at which `c` fits in a sorted `s`. */
  lemma CountBelowAt(s: seq<int>, c: int, i: int)
    requires NonDecreasing(s) && 0 <= i <= |s|
    requires i == 0 || s[i - 1] < c
    requires i == |s| || c <= s[i]
    ensures CountBelow(s, c) == i
  {
    if i > 0 {
      BelowIsPrefix(s, c, i - 1);
    }
    if i < |s| {
      BelowIsPrefix(s, c, i);
    }
  }

  /** For column indexes sorted by column, the `t`-th triple lies inside the
      pointer range `[CountBelow(s, c), CountBelow(s, c + 1))` exactly when
      its column is `c`: that range is column `c`'s slice. */
  lemma TripleInColumnSlice(s: seq<int>, c: int, t: int)
    requires NonDecreasing(s) && 0 <= t < |s|
    ensures CountBelow(s, c) <= t < CountBelow(s, c + 1) <==> s[t] == c
  {
    BelowIsPrefix(s, c, t);
    BelowIsPrefix(s, c + 1, t);
  }

  /** `CountBelow` never decreases as the bound grows. */
  lemma {:induction false} CountBelowMonotone(s: seq<int>, a: int, b: int)
    requires a <= b
    ensures CountBelow(s, a) <= CountBelow(s, b)
  {
    if |s| > 0 {
      CountBelowMonotone(s[..|s| - 1], a, b);
    }
  }
}
