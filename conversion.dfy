/** Building the three CSC buffers from other sparse layouts: the general
    three-pass counting sort over a row-major source, the concatenation of a
    column-major source, the copy of another CSC block, the concatenation of
    an array of column rows, the single pass over column-sorted triples, and
    the inference of the column count. */
module CscConversion {
  import opened CscLayout
  import opened Transposition

  /** A source sparse block, as far as the conversion looks into it.
      - `Csr`: CSR or DCSR; all rows share one index buffer, so `indexes(0)`
        exposes the column indexes of every entry.
      - `Mcsr`: one optional row object per row (`None` is a null row).
      - `Mcsc`: one allocated column object per column, and the row count it
        reports.
      - `Csc`: the buffers of another CSC block and its `_size` field. */
  datatype Block =
    | Csr(rows: seq<seq<Cell>>)
    | Mcsr(rowObjs: seq<Option<seq<Cell>>>)
    | Mcsc(cols: seq<seq<Cell>>, nrows: int)
    | Csc(ptr: seq<int>, indexes: seq<int>, values: seq<real>, size: int)

  /** What a row or column object shows through `isEmpty`, `size`,
      `indexes` and `values`: a null object reads as empty. */
  function Content(o: Option<seq<Cell>>): seq<Cell>
  {
    if o.Some? then o.value else []
  }

  /** The lines a source shows through those accessors, one per object. */
  function Present(objs: seq<Option<seq<Cell>>>): (r: seq<seq<Cell>>)
    ensures |r| == |objs|
    ensures forall i :: 0 <= i < |objs| ==> r[i] == Content(objs[i])
  {
    if |objs| == 0 then [] else Present(objs[..|objs| - 1]) + [Content(objs[|objs| - 1])]
  }

  function RowsOf(b: Block): seq<seq<Cell>>
    requires b.Csr? || b.Mcsr?
  {
    if b.Csr? then b.rows else Present(b.rowObjs)
  }

  /** `numRows()` of the source. A CSC block reports the constant 6. */
  function NumRows(b: Block): int
  {
    match b
    case Csr(rows) => |rows|
    case Mcsr(objs) => |objs|
    case Mcsc(_, nrows) => nrows
    case Csc(_, _, _, _) => 6
  }

  /** `size()` of the source: its number of entries; for a CSC block the last
      pointer, not its `_size` field. */
  function SizeOf(b: Block): int
    requires b.Csc? ==> |b.ptr| >= 1
  {
    match b
    case Csr(rows) => Total(rows)
    case Mcsr(objs) => Total(Present(objs))
    case Mcsc(cols, _) => Total(cols)
    case Csc(ptr, _, _, _) => ptr[|ptr| - 1]
  }

  /** What a conversion demands of its source and of the column count `clen`:
      a CSC source has a pointer array and a non-negative `_size`; a row-major
      source names only columns in `[0, clen)`. */
  predicate ConvertibleWith(b: Block, clen: int)
  {
    match b
    case Csc(ptr, _, _, size) => |ptr| >= 1 && size >= 0
    case Mcsc(_, _) => true
    case _ => clen >= 0 && ColumnsInRange(RowsOf(b), clen)
  }

  // ---------------------------------------------------------------------
  // General case: three-pass counting sort over a row-major source.
  // ---------------------------------------------------------------------

  /** The inner loop of step 1: count the entries of row `i` into the
      histogram, one bucket increment per entry. */
  method CountRow(rows: seq<seq<Cell>>, i: nat, colCounts: array<int>)
    requires i < |rows| && ColumnsInRange(rows, colCounts.Length)
    modifies colCounts
    ensures forall j :: 0 <= j < colCounts.Length ==> colCounts[j] == old(colCounts[j]) + |RowPart(i, rows[i], j)|
    ensures Sum(colCounts[..]) == old(Sum(colCounts[..])) + |rows[i]|
  {
    var clen := colCounts.Length;
    var k := 0;
    while k < |rows[i]|
      invariant 0 <= k <= |rows[i]|
      invariant forall j :: 0 <= j < clen ==> colCounts[j] == old(colCounts[j]) + |RowPart(i, rows[i][..k], j)|
      invariant Sum(colCounts[..]) == old(Sum(colCounts[..])) + k
    {
      var col := rows[i][k].index;
      ghost var before := colCounts[..];
      colCounts[col] := colCounts[col] + 1;
      assert colCounts[..] == before[col := before[col] + 1];
      SumIncrement(before, col);
      forall j | 0 <= j < clen {
        RowPartStep(i, rows[i], k, j);
      }
      k := k + 1;
    }
    assert rows[i][..k] == rows[i];
  }

  /** Step 1: the histogram of entries per column. */
  method Histogram(rows: seq<seq<Cell>>, clen: nat) returns (colCounts: array<int>)
    requires ColumnsInRange(rows, clen)
    ensures colCounts.Length == clen
    ensures forall j :: 0 <= j < clen ==> colCounts[j] == |ColumnOf(rows, j)|
    ensures Sum(colCounts[..]) == Total(rows)
  {
    colCounts := new int[clen](_ => 0);
    SumOfZeros(colCounts[..]);
    var i := 0;
    while i < |rows|
      invariant 0 <= i <= |rows|
      invariant forall j :: 0 <= j < clen ==> colCounts[j] == |ColumnOf(rows[..i], j)|
      invariant Sum(colCounts[..]) == Total(rows[..i])
    {
      if |rows[i]| > 0 {
        CountRow(rows, i, colCounts);
      }
      forall j | 0 <= j < clen {
        ColumnOfStep(rows, i, j);
      }
      assert rows[..i + 1][..i] == rows[..i];
      i := i + 1;
    }
    assert rows[..i] == rows;
  }

  /** Step 2: the pointer array as the prefix sums of the histogram. */
  method PointerPrefixSum(colCounts: array<int>) returns (ptr: array<int>)
    requires forall j :: 0 <= j < colCounts.Length ==> colCounts[j] >= 0
    ensures fresh(ptr) && ptr.Length == colCounts.Length + 1
    ensures ptr[0] == 0
    ensures forall j :: 0 <= j < colCounts.Length ==> ptr[j + 1] == ptr[j] + colCounts[j]
    ensures forall a, b :: 0 <= a <= b < ptr.Length ==> ptr[a] <= ptr[b]
    ensures ptr[colCounts.Length] == Sum(colCounts[..])
  {
    var clen := colCounts.Length;
    ptr := new int[clen + 1](_ => 0);
    ptr[0] := 0;
    var j := 0;
    while j < clen
      invariant 0 <= j <= clen
      invariant ptr[0] == 0
      invariant forall t :: 0 <= t < j ==> ptr[t + 1] == ptr[t] + colCounts[t]
      invariant forall a, b :: 0 <= a <= b <= j ==> ptr[a] <= ptr[b]
      invariant ptr[j] == Sum(colCounts[..j])
    {
      ptr[j + 1] := ptr[j] + colCounts[j];
      assert colCounts[..j + 1][..j] == colCounts[..j];
      j := j + 1;
    }
    assert colCounts[..j] == colCounts[..];
  }

  /** Every cursor lies inside its column's slice, `filled[j]` entries past
      the slice start. */
  ghost predicate CursorBounds(ptr: seq<int>, cur: seq<int>, filled: seq<seq<Cell>>, ixLen: int, valLen: int)
    requires |ptr| == |cur| + 1 && |filled| == |cur|
  {
    forall j {:trigger cur[j]} :: 0 <= j < |cur| ==>
      && 0 <= ptr[j]
      && cur[j] == ptr[j] + |filled[j]|
      && cur[j] <= ptr[j + 1] <= ixLen
      && ptr[j + 1] <= valLen
  }

  /** The buffers hold `filled[j]`, in order, from `ptr[j]` up to `cur[j]`. */
  ghost predicate EntriesAgree(ptr: seq<int>, cur: seq<int>, filled: seq<seq<Cell>>, ix: seq<int>, vals: seq<real>)
    requires |ptr| == |cur| + 1 && |filled| == |cur|
    requires CursorBounds(ptr, cur, filled, |ix|, |vals|)
  {
    forall j, q :: 0 <= j < |cur| && ptr[j] <= q < cur[j] ==>
      ix[q] == filled[j][q - ptr[j]].index && vals[q] == filled[j][q - ptr[j]].value
  }

  /** The scatter's bookkeeping: every column `j` has received the entries
      `filled[j]`, stored in order from `ptr[j]` up to its cursor `cur[j]`,
      and no cursor has run into the next column's slice. */
  ghost predicate CursorsAgree(ptr: seq<int>, cur: seq<int>, filled: seq<seq<Cell>>, ix: seq<int>, vals: seq<real>)
  {
    && |ptr| == |cur| + 1 && |filled| == |cur|
    && PtrShape(ptr, |ix|, |vals|)
    && CursorBounds(ptr, cur, filled, |ix|, |vals|)
    && EntriesAgree(ptr, cur, filled, ix, vals)
  }

  /** Writing one entry at the cursor of column `col` and advancing that
      cursor keeps the bookkeeping, provided the column has room left. */
  lemma ScatterStep(ptr: seq<int>, cur: seq<int>, filled: seq<seq<Cell>>, ix: seq<int>, vals: seq<real>,
                    col: int, row: int, v: real)
    requires CursorsAgree(ptr, cur, filled, ix, vals)
    requires 0 <= col < |cur| && cur[col] < ptr[col + 1]
    ensures 0 <= cur[col] < |ix| && cur[col] < |vals|
    ensures CursorsAgree(ptr, cur[col := cur[col] + 1], filled[col := filled[col] + [Cell(row, v)]],
                         ix[cur[col] := row], vals[cur[col] := v])
  {
    var pos := cur[col];
    assert ptr[0] <= ptr[col] && ptr[col + 1] <= ptr[|ptr| - 1];
    var cur': seq<int>, filled': seq<seq<Cell>> := cur[col := pos + 1], filled[col := filled[col] + [Cell(row, v)]];
    var ix': seq<int>, vals': seq<real> := ix[pos := row], vals[pos := v];
    assert CursorBounds(ptr, cur', filled', |ix'|, |vals'|) by {
      forall j {:trigger cur'[j]} | 0 <= j < |cur'|
        ensures && 0 <= ptr[j]
                && cur'[j] == ptr[j] + |filled'[j]|
                && cur'[j] <= ptr[j + 1] <= |ix'|
                && ptr[j + 1] <= |vals'|
      {
        assert cur[j] == ptr[j] + |filled[j]|;
      }
    }
    ScatterStepEntries(ptr, cur, filled, ix, vals, col, row, v, cur', filled', ix', vals');
  }

  lemma ScatterStepEntries(ptr: seq<int>, cur: seq<int>, filled: seq<seq<Cell>>, ix: seq<int>, vals: seq<real>,
                           col: int, row: int, v: real,
                           cur': seq<int>, filled': seq<seq<Cell>>, ix': seq<int>, vals': seq<real>)
    requires CursorsAgree(ptr, cur, filled, ix, vals)
    requires 0 <= col < |cur| && cur[col] < ptr[col + 1]
    requires cur' == cur[col := cur[col] + 1] && filled' == filled[col := filled[col] + [Cell(row, v)]]
    requires 0 <= cur[col] < |ix| && cur[col] < |vals|
    requires ix' == ix[cur[col] := row] && vals' == vals[cur[col] := v]
    requires CursorBounds(ptr, cur', filled', |ix'|, |vals'|)
    ensures EntriesAgree(ptr, cur', filled', ix', vals')
  {
    var pos := cur[col];
    assert cur[col] == ptr[col] + |filled[col]|;
    forall j, q | 0 <= j < |cur| && ptr[j] <= q < cur'[j]
      ensures ix'[q] == filled'[j][q - ptr[j]].index && vals'[q] == filled'[j][q - ptr[j]].value
    {
      assert cur[j] == ptr[j] + |filled[j]|;
      if j < col {
        assert ptr[j + 1] <= ptr[col];
      } else if j > col {
        assert ptr[col + 1] <= ptr[j];
      } else if q < pos {
        assert filled'[j][q - ptr[j]] == filled[j][q - ptr[j]];
      }
    }
  }

  /** Once every cursor has reached the start of the next column, the column
      view of the buffers is exactly what was scattered. */
  lemma ScatterComplete(ptr: seq<int>, cur: seq<int>, filled: seq<seq<Cell>>, ix: seq<int>, vals: seq<real>)
    requires CursorsAgree(ptr, cur, filled, ix, vals)
    requires forall j :: 0 <= j < |cur| ==> cur[j] == ptr[j + 1]
    ensures ColumnsOf(ptr, ix, vals) == filled
  {
    forall c | 0 <= c < |cur|
      ensures Slice(ptr, ix, vals, c) == filled[c]
    {
      var col := Slice(ptr, ix, vals, c);
      assert cur[c] == ptr[c + 1] && |col| == |filled[c]|;
      forall k | 0 <= k < |col| ensures col[k] == filled[c][k] {
        var q := ptr[c] + k;
        assert ix[q] == filled[c][q - ptr[c]].index && vals[q] == filled[c][q - ptr[c]].value;
      }
    }
  }

  /** The entries of the first `i` rows, then of the first `k` entries of
      row `i`, grouped by column: what the scatter has placed so far. */
  ghost predicate Collected(rows: seq<seq<Cell>>, i: nat, k: nat, filled: seq<seq<Cell>>, clen: nat)
    requires i < |rows| && k <= |rows[i]|
  {
    |filled| == clen
    && forall j :: 0 <= j < clen ==> filled[j] == ColumnOf(rows[..i], j) + RowPart(i, rows[i][..k], j)
  }

  lemma CollectedStep(rows: seq<seq<Cell>>, i: nat, k: nat, filled: seq<seq<Cell>>, clen: nat)
    requires i < |rows| && k < |rows[i]| && 0 <= rows[i][k].index < clen
    requires Collected(rows, i, k, filled, clen)
    ensures Collected(rows, i, k + 1, filled[rows[i][k].index := filled[rows[i][k].index] + [Cell(i, rows[i][k].value)]], clen)
  {
    forall j | 0 <= j < clen {
      RowPartStep(i, rows[i], k, j);
    }
  }

  /** The next entry of row `i` finds room in its column: the entries placed
      in that column so far, itself included, never exceed the column's
      count. */
  lemma ScatterRoom(rows: seq<seq<Cell>>, i: nat, k: nat, ptr: seq<int>, cur: seq<int>, filled: seq<seq<Cell>>,
                    ix: seq<int>, vals: seq<real>)
    requires i < |rows| && k < |rows[i]| && ColumnsInRange(rows, |cur|)
    requires CursorsAgree(ptr, cur, filled, ix, vals) && Collected(rows, i, k, filled, |cur|)
    requires forall j :: 0 <= j < |ptr| - 1 ==> ptr[j + 1] == ptr[j] + |ColumnOf(rows, j)|
    ensures 0 <= rows[i][k].index < |cur| && cur[rows[i][k].index] < ptr[rows[i][k].index + 1]
  {
    var col := rows[i][k].index;
    assert cur[col] == ptr[col] + |filled[col]|;
    RowPartStep(i, rows[i], k, col);
    ColumnOfPrefix(rows, i, k + 1, col);
  }

  /** The inner loop of step 3: scatter the entries of row `i` through the
      column cursors. */
  method ScatterRow(rows: seq<seq<Cell>>, i: nat, ptr: array<int>, ix: array<int>, vals: array<real>,
                    colPositions: array<int>, ghost filled: seq<seq<Cell>>)
    returns (ghost filled': seq<seq<Cell>>)
    requires i < |rows| && ColumnsInRange(rows, colPositions.Length)
    requires ptr != colPositions && ix != colPositions && ix != ptr
    requires forall j :: 0 <= j < ptr.Length - 1 ==> ptr[j + 1] == ptr[j] + |ColumnOf(rows, j)|
    requires CursorsAgree(ptr[..], colPositions[..], filled, ix[..], vals[..])
    requires Collected(rows, i, 0, filled, colPositions.Length)
    modifies ix, vals, colPositions
    ensures CursorsAgree(ptr[..], colPositions[..], filled', ix[..], vals[..])
    ensures Collected(rows, i, |rows[i]|, filled', colPositions.Length)
  {
    var clen := colPositions.Length;
    filled' := filled;
    var k := 0;
    while k < |rows[i]|
      invariant 0 <= k <= |rows[i]|
      invariant CursorsAgree(ptr[..], colPositions[..], filled', ix[..], vals[..])
      invariant Collected(rows, i, k, filled', clen)
    {
      var col := rows[i][k].index;
      var pos := colPositions[col];
      ghost var ix0, vals0, cur0, filled0 := ix[..], vals[..], colPositions[..], filled';
      ScatterRoom(rows, i, k, ptr[..], cur0, filled0, ix0, vals0);
      ScatterStep(ptr[..], cur0, filled0, ix0, vals0, col, i, rows[i][k].value);
      ix[pos] := i;
      vals[pos] := rows[i][k].value;
      colPositions[col] := pos + 1;
      filled' := filled'[col := filled'[col] + [Cell(i, rows[i][k].value)]];
      assert ix[..] == ix0[pos := i];
      assert vals[..] == vals0[pos := rows[i][k].value];
      assert colPositions[..] == cur0[col := pos + 1];
      CollectedStep(rows, i, k, filled0, clen);
      k := k + 1;
    }
  }

  /** Step 3: scatter every entry into its column's slice through a per-column
      write cursor. Rows are visited in increasing order, so each slice is
      filled in the order of `ColumnOf`. */
  method Scatter(rows: seq<seq<Cell>>, ptr: array<int>, nnz: nat) returns (ix: array<int>, vals: array<real>)
    requires PtrShape(ptr[..], nnz, nnz) && ptr[ptr.Length - 1] == nnz
    requires ColumnsInRange(rows, ptr.Length - 1)
    requires forall j :: 0 <= j < ptr.Length - 1 ==> ptr[j + 1] == ptr[j] + |ColumnOf(rows, j)|
    ensures fresh(ix) && fresh(vals) && ix.Length == nnz && vals.Length == nnz
    ensures ColumnsOf(ptr[..], ix[..], vals[..]) == Transpose(rows, ptr.Length - 1)
  {
    var clen := ptr.Length - 1;
    ix := new int[nnz](_ => 0);
    vals := new real[nnz](_ => 0.0);
    var colPositions := new int[clen](_ => 0);
    forall j | 0 <= j < clen {
      colPositions[j] := ptr[j];
    }
    ghost var p := ptr[..];
    assert forall j :: 0 <= j < |p| ==> p[0] <= p[j] <= p[|p| - 1];
    ghost var filled: seq<seq<Cell>> := seq(clen, _ => []);
    var i := 0;
    while i < |rows|
      modifies ix, vals, colPositions
      invariant 0 <= i <= |rows|
      invariant CursorsAgree(ptr[..], colPositions[..], filled, ix[..], vals[..])
      invariant forall j :: 0 <= j < clen ==> filled[j] == ColumnOf(rows[..i], j)
    {
      if |rows[i]| > 0 {
        assert Collected(rows, i, 0, filled, clen);
        filled := ScatterRow(rows, i, ptr, ix, vals, colPositions, filled);
        assert rows[i][..|rows[i]|] == rows[i];
      }
      forall j | 0 <= j < clen {
        ColumnOfStep(rows, i, j);
      }
      i := i + 1;
    }
    assert rows[..i] == rows;
    // every cursor has reached the start of the next column
    ScatterComplete(ptr[..], colPositions[..], filled, ix[..], vals[..]);
  }

  /** Steps 1-3 together: the CSC buffers of a row-major source with `clen`
      columns. Column `j`'s slice is the source's column `j`, in row order. */
  method CountingSort(rows: seq<seq<Cell>>, clen: nat) returns (ptr: array<int>, ix: array<int>, vals: array<real>)
    requires ColumnsInRange(rows, clen)
    ensures fresh(ptr) && fresh(ix) && fresh(vals)
    ensures ptr.Length == clen + 1 && ix.Length == Total(rows) && vals.Length == Total(rows)
    ensures ptr[0] == 0 && ptr[clen] == Total(rows)
    ensures forall j :: 0 <= j < clen ==> ptr[j + 1] == ptr[j] + |ColumnOf(rows, j)|
    ensures PtrShape(ptr[..], ix.Length, vals.Length)
    ensures ColumnsOf(ptr[..], ix[..], vals[..]) == Transpose(rows, clen)
  {
    var colCounts := Histogram(rows, clen);
    ptr := PointerPrefixSum(colCounts);
    ix, vals := Scatter(rows, ptr, Total(rows));
  }

  // ---------------------------------------------------------------------
  // Column-major sources.
  // ---------------------------------------------------------------------

  /** Appending a column after the last slice of well-formed buffers: the
      new pointer closes the slice, and the column view grows by exactly that
      column, provided everything before the old end is left untouched. */
  lemma AppendColumn(p: seq<int>, ix: seq<int>, vals: seq<real>, ix': seq<int>, vals': seq<real>, col: seq<Cell>)
    requires PtrShape(p, |ix|, |vals|) && |ix'| == |ix| && |vals'| == |vals|
    requires p[|p| - 1] + |col| <= |ix| && p[|p| - 1] + |col| <= |vals|
    requires forall q :: 0 <= q < p[|p| - 1] ==> ix'[q] == ix[q] && vals'[q] == vals[q]
    requires forall t :: 0 <= t < |col| ==> ix'[p[|p| - 1] + t] == col[t].index && vals'[p[|p| - 1] + t] == col[t].value
    ensures PtrShape(p + [p[|p| - 1] + |col|], |ix'|, |vals'|)
    ensures ColumnsOf(p + [p[|p| - 1] + |col|], ix', vals') == ColumnsOf(p, ix, vals) + [col]
  {
    var p' := p + [p[|p| - 1] + |col|];
    assert PtrShape(p', |ix'|, |vals'|);
    forall c | 0 <= c < |p| - 1
      ensures Slice(p', ix', vals', c) == Slice(p, ix, vals, c)
    {
      assert p[c] <= p[c + 1] <= p[|p| - 1];
    }
    assert Slice(p', ix', vals', |p| - 1) == col;
  }

  /** Writes the entries of `column` into the buffers from position `at` on,
      leaving everything before `at` as it was. */
  method CopyColumn(column: seq<Cell>, ix: array<int>, vals: array<real>, at: nat)
    requires at + |column| <= ix.Length && at + |column| <= vals.Length
    modifies ix, vals
    ensures forall t :: 0 <= t < |column| ==> ix[at + t] == column[t].index && vals[at + t] == column[t].value
    ensures forall q :: 0 <= q < at ==> ix[q] == old(ix[q]) && vals[q] == old(vals[q])
    ensures forall q :: at + |column| <= q < ix.Length ==> ix[q] == old(ix[q])
    ensures forall q :: at + |column| <= q < vals.Length ==> vals[q] == old(vals[q])
  {
    var i := 0;
    while i < |column|
      invariant 0 <= i <= |column|
      invariant forall t :: 0 <= t < i ==> ix[at + t] == column[t].index && vals[at + t] == column[t].value
      invariant forall q :: 0 <= q < at ==> ix[q] == old(ix[q]) && vals[q] == old(vals[q])
      invariant forall q :: at + i <= q < ix.Length ==> ix[q] == old(ix[q])
      invariant forall q :: at + i <= q < vals.Length ==> vals[q] == old(vals[q])
    {
      ix[at + i] := column[i].index;
      vals[at + i] := column[i].value;
      i := i + 1;
    }
  }

  /** The first `m - 1` columns have been copied: `p` holds their `m`
      pointers and the buffers hold their entries. */
  ghost predicate Concatenated(cols: seq<seq<Cell>>, m: int, p: seq<int>, ix: seq<int>, vals: seq<real>)
  {
    && 1 <= m <= |cols| + 1
    && |p| == m
    && PtrShape(p, |ix|, |vals|)
    && p[m - 1] == Total(cols[..m - 1])
    && ColumnsOf(p, ix, vals) == cols[..m - 1]
  }

  /** After the first `m - 1` columns, the next one still fits. */
  lemma ConcatRoom(cols: seq<seq<Cell>>, m: int, p: seq<int>, ix: seq<int>, vals: seq<real>)
    requires Concatenated(cols, m, p, ix, vals) && m <= |cols|
    ensures p[m - 1] + |cols[m - 1]| <= Total(cols)
  {
    TotalPrefix(cols, m);
    assert cols[..m][..m - 1] == cols[..m - 1];
  }

  /** Copying column `m - 1` behind the first `m - 1` extends the
      concatenation by one column. */
  lemma ConcatStep(cols: seq<seq<Cell>>, m: int, p: seq<int>, ix: seq<int>, vals: seq<real>, ix': seq<int>, vals': seq<real>)
    requires Concatenated(cols, m, p, ix, vals) && m <= |cols|
    requires |ix'| == |ix| && |vals'| == |vals|
    requires p[m - 1] + |cols[m - 1]| <= |ix| && p[m - 1] + |cols[m - 1]| <= |vals|
    requires var col := cols[m - 1];
      forall t :: 0 <= t < |col| ==> ix'[p[m - 1] + t] == col[t].index && vals'[p[m - 1] + t] == col[t].value
    requires forall q :: 0 <= q < p[m - 1] ==> ix'[q] == ix[q] && vals'[q] == vals[q]
    ensures Concatenated(cols, m + 1, p + [p[m - 1] + |cols[m - 1]|], ix', vals')
  {
    TotalPrefix(cols, m);
    assert cols[..m][..m - 1] == cols[..m - 1];
    AppendColumn(p, ix, vals, ix', vals', cols[m - 1]);
    assert cols[..m] == cols[..m - 1] + [cols[m - 1]];
  }

  /** Before any column is copied: a single zero pointer. */
  lemma ConcatStart(cols: seq<seq<Cell>>, p: seq<int>, ix: seq<int>, vals: seq<real>)
    requires p == [0]
    ensures Concatenated(cols, 1, p, ix, vals)
  {
    assert ColumnsOf(p, ix, vals) == [];
  }

  /** After every column is copied, the buffers show exactly the columns. */
  lemma ConcatDone(cols: seq<seq<Cell>>, p: seq<int>, ix: seq<int>, vals: seq<real>)
    requires Concatenated(cols, |cols| + 1, p, ix, vals)
    ensures PtrShape(p, |ix|, |vals|) && p[|cols|] == Total(cols)
    ensures ColumnsOf(p, ix, vals) == cols
  {
    assert cols[..|cols|] == cols;
  }

  /** A column-major (MCSC) source: its columns are concatenated in order,
      each copied entry by entry, with a running pointer. */
  method ConcatColumns(cols: seq<seq<Cell>>) returns (ptr: array<int>, ix: array<int>, vals: array<real>)
    ensures fresh(ptr) && fresh(ix) && fresh(vals)
    ensures ptr.Length == |cols| + 1 && ix.Length == Total(cols) && vals.Length == Total(cols)
    ensures PtrShape(ptr[..], ix.Length, vals.Length)
    ensures ColumnsOf(ptr[..], ix[..], vals[..]) == cols
  {
    var nnz := Total(cols);
    ptr := new int[|cols| + 1](_ => 0);
    ptr[0] := 0;
    vals := new real[nnz](_ => 0.0);
    ix := new int[nnz](_ => 0);
    var ptrPos := 1;
    var valPos := 0;
    assert Concatenated(cols, 1, ptr[..1], ix[..], vals[..]) by {
      assert ColumnsOf(ptr[..1], ix[..], vals[..]) == [];
    }
    while ptrPos <= |cols|
      modifies ptr, ix, vals
      invariant ptr != ix && ptr.Length == |cols| + 1 && ix.Length == vals.Length == nnz
      invariant 1 <= ptrPos <= |cols| + 1
      invariant Concatenated(cols, ptrPos, ptr[..ptrPos], ix[..], vals[..])
      invariant valPos == ptr[ptrPos - 1]
    {
      var column := cols[ptrPos - 1];
      ghost var ptr0, ix0, vals0 := ptr[..ptrPos], ix[..], vals[..];
      ConcatRoom(cols, ptrPos, ptr0, ix0, vals0);
      CopyColumn(column, ix, vals, valPos);
      ConcatStep(cols, ptrPos, ptr0, ix0, vals0, ix[..], vals[..]);
      ptr[ptrPos] := valPos + |column|;
      assert ptr[..ptrPos + 1] == ptr0 + [valPos + |column|];
      ptrPos := ptrPos + 1;
      valPos := valPos + |column|;
    }
    assert ptr[..ptrPos] == ptr[..] && cols[..ptrPos - 1] == cols;
  }

  // ---------------------------------------------------------------------
  // An array of column rows, `SparseBlockCSC(SparseRow[] cols, int nnz)`.
  // ---------------------------------------------------------------------

  /** One pass of the loop over the column rows: an allocated, non-empty
      column `col` is copied from position `pos` on and the pointer of the
      next column is set; a null or empty one only gets its pointer. */
  method AppendColumnRow(col: Option<seq<Cell>>, ghost lines: seq<seq<Cell>>, i: nat,
                         ptr: array<int>, ix: array<int>, vals: array<real>, pos: int) returns (next: int)
    requires ptr != ix && i + 1 < ptr.Length && i < |lines| && lines[i] == Content(col)
    requires Total(lines) <= ix.Length == vals.Length
    requires Concatenated(lines, i + 1, ptr[..i + 1], ix[..], vals[..]) && pos == ptr[i]
    modifies ptr, ix, vals
    ensures Concatenated(lines, i + 1 + 1, ptr[..i + 1 + 1], ix[..], vals[..]) && next == ptr[i + 1]
  {
    ghost var ptr0, ix0, vals0 := ptr[..i + 1], ix[..], vals[..];
    ConcatRoom(lines, i + 1, ptr0, ix0, vals0);
    next := pos;
    if col.Some? && |col.value| > 0 {
      var alen := |col.value|;
      CopyColumn(col.value, ix, vals, pos);
      next := pos + alen;
    }
    ghost var ix1, vals1 := ix[..], vals[..];
    ConcatStep(lines, i + 1, ptr0, ix0, vals0, ix1, vals1);
    ptr[i + 1] := next;
    assert ptr[..i + 2] == ptr0 + [next];
  }

  /** The loop over the column rows, from a single zero pointer to all
      `|cols| + 1` pointers. */
  method ConcatRowsLoop(cols: seq<Option<seq<Cell>>>, ghost lines: seq<seq<Cell>>,
                        ptr: array<int>, ix: array<int>, vals: array<real>)
    requires lines == Present(cols) && ptr != ix && ptr.Length == |cols| + 1
    requires Total(lines) <= ix.Length == vals.Length
    requires Concatenated(lines, 1, ptr[..1], ix[..], vals[..]) && ptr[0] == 0
    modifies ptr, ix, vals
    ensures Concatenated(lines, |cols| + 1, ptr[..], ix[..], vals[..])
  {
    var i, pos := 0, 0;
    while i < |cols|
      invariant 0 <= i <= |cols|
      invariant Concatenated(lines, i + 1, ptr[..i + 1], ix[..], vals[..])
      invariant pos == ptr[i]
    {
      pos := AppendColumnRow(cols[i], lines, i, ptr, ix, vals, pos);
      i := i + 1;
    }
    assert ptr[..i + 1] == ptr[..];
  }

  /** Concatenates the allocated, non-empty column rows into buffers of
      `nnz` entries; a null or empty column gets an empty slice. */
  method ConcatSparseRows(cols: seq<Option<seq<Cell>>>, nnz: nat) returns (ptr: array<int>, ix: array<int>, vals: array<real>)
    requires Total(Present(cols)) <= nnz
    ensures fresh(ptr) && fresh(ix) && fresh(vals)
    ensures ptr.Length == |cols| + 1 && ix.Length == nnz && vals.Length == nnz
    ensures PtrShape(ptr[..], ix.Length, vals.Length) && ptr[|cols|] == Total(Present(cols))
    ensures ColumnsOf(ptr[..], ix[..], vals[..]) == Present(cols)
  {
    ptr := new int[|cols| + 1](_ => 0);
    ix := new int[nnz](_ => 0);
    vals := new real[nnz](_ => 0.0);
    ConcatStart(Present(cols), ptr[..1], ix[..], vals[..]);
    ConcatRowsLoop(cols, Present(cols), ptr, ix, vals);
    ConcatDone(Present(cols), ptr[..], ix[..], vals[..]);
  }

  // ---------------------------------------------------------------------
  // Triples sorted by column, `SparseBlockCSC(int cols, int[] rowInd,
  // int[] colInd, double[] values)`.
  // ---------------------------------------------------------------------

  /** `Arrays.fill(a, from, to, v)`. */
  method Fill(a: array<int>, from: int, to: int, v: int)
    requires 0 <= from <= to <= a.Length
    modifies a
    ensures forall k :: 0 <= k < a.Length ==> a[k] == (if from <= k < to then v else old(a[k]))
  {
    var k := from;
    while k < to
      invariant from <= k <= to
      invariant forall q :: 0 <= q < a.Length ==> a[q] == (if from <= q < k then v else old(a[q]))
    {
      a[k] := v;
      k := k + 1;
    }
  }

  /** The single pass that sets the column pointers from the column indexes
      of `nnz` triples: each time the column grows from `clast` to `c` at
      triple `i`, the pointers of columns `clast+1 .. c` become `i`; the
      pointers past the last column seen become `nnz`. A column index of -1
      is let through: the next jump fills from pointer 0 on. When the
      triples are sorted by column, pointer `c` is the number of triples in
      columns before `c`, so it is 0 for column 0 only when no index is -1. */
  method FillPointers(cols: nat, colInd: seq<int>, nnz: nat) returns (ptr: array<int>)
    requires nnz <= |colInd|
    requires forall t :: 0 <= t < nnz ==> -1 <= colInd[t] <= cols
    ensures fresh(ptr) && ptr.Length == cols + 1
    ensures (forall t :: 0 <= t < nnz ==> 0 <= colInd[t]) ==> ptr[0] == 0
    ensures NonDecreasing(colInd[..nnz]) ==>
      forall c :: 0 <= c <= cols ==> ptr[c] == CountBelow(colInd[..nnz], c)
  {
    ghost var s := colInd[..nnz];
    ghost var sorted := NonDecreasing(s);
    ptr := new int[cols + 1](_ => 0);
    var clast := 0;
    var i := 0;
    while i < nnz
      invariant 0 <= i <= nnz && -1 <= clast <= cols && ptr.Length == cols + 1
      invariant i == 0 ==> clast == 0 && ptr[0] == 0
      invariant i > 0 ==> clast == s[i - 1]
      invariant (forall t :: 0 <= t < i ==> 0 <= s[t]) ==> 0 <= clast && ptr[0] == 0
      invariant sorted && i > 0 ==> forall c :: 0 <= c <= clast ==> ptr[c] == CountBelow(s, c)
      invariant sorted ==> forall c :: clast < c <= cols ==> ptr[c] == 0
    {
      var c := colInd[i];
      if clast < c {
        Fill(ptr, clast + 1, c + 1, i);
        if sorted {
          forall c' | clast < c' <= c
            ensures CountBelow(s, c') == i
          {
            CountBelowAt(s, c', i);
          }
          if i == 0 {
            CountBelowAt(s, 0, 0);
          }
        }
      } else if sorted && i > 0 {
        assert s[i - 1] <= s[i];
      } else if sorted && c == 0 {
        CountBelowAt(s, 0, 0);
      }
      clast := c;
      i := i + 1;
    }
    Fill(ptr, clast + 1, ptr.Length, nnz);
    if sorted {
      forall c' | clast < c' <= cols
        ensures CountBelow(s, c') == nnz
      {
        CountBelowAt(s, c', nnz);
      }
      if nnz == 0 {
        CountBelowAt(s, 0, 0);
      }
    }
  }

  /** The pointer array that triples sorted by column call for: pointer `c`
      counts the triples in columns before `c`. */
  function TriplePointers(s: seq<int>, cols: nat): (p: seq<int>)
    ensures |p| == cols + 1
    ensures forall c :: 0 <= c <= cols ==> p[c] == CountBelow(s, c)
  {
    seq(cols + 1, c => CountBelow(s, c))
  }

  /** Reference definition: the entries of column `c` among the first `n`
      triples, as (row, value), in triple order. */
  function TriplesIn(s: seq<int>, rowInd: seq<int>, vals: seq<real>, c: int, n: nat): seq<Cell>
    requires n <= |s| && n <= |rowInd| && n <= |vals|
  {
    if n == 0 then []
    else TriplesIn(s, rowInd, vals, c, n - 1)
         + (if s[n - 1] == c then [Cell(rowInd[n - 1], vals[n - 1])] else [])
  }

  /** How many of the first `n` triples of a column-sorted list lie in the
      slice `[lo, hi)`. */
  function Overlap(lo: int, hi: int, n: int): int
  {
    if n <= lo then 0 else if n <= hi then n - lo else hi - lo
  }

  /** For triples sorted by column, the entries of column `c` among the first
      `n` are the triples of the pointer slice of `c` seen so far. */
  lemma {:induction false} TriplesInSlice(s: seq<int>, rowInd: seq<int>, vals: seq<real>, c: int, n: nat)
    requires NonDecreasing(s) && n <= |s| && |s| <= |rowInd| && |s| <= |vals|
    ensures var lo, hi := CountBelow(s, c), CountBelow(s, c + 1);
      var m := Overlap(lo, hi, n);
      && 0 <= m && lo + m <= |s|
      && TriplesIn(s, rowInd, vals, c, n) == seq(m, k requires 0 <= k < m => Cell(rowInd[lo + k], vals[lo + k]))
  {
    var lo, hi := CountBelow(s, c), CountBelow(s, c + 1);
    CountBelowMonotone(s, c, c + 1);
    if n > 0 {
      TriplesInSlice(s, rowInd, vals, c, n - 1);
      TripleInColumnSlice(s, c, n - 1);
    }
  }

  /** The pointers the triples constructor computes, read over its copied
      row-index and value buffers: a well-formed block whose column `c` holds
      exactly the triples with column index `c`, in triple order. */
  lemma TriplesColumns(s: seq<int>, rowInd: seq<int>, vals: seq<real>, cols: nat)
    requires NonDecreasing(s) && |s| <= |rowInd| && |s| == |vals|
    requires forall t :: 0 <= t < |s| ==> 0 <= s[t] < cols
    ensures PtrShape(TriplePointers(s, cols), |rowInd|, |vals|)
    ensures TriplePointers(s, cols)[cols] == |s|
    ensures ColumnsOf(TriplePointers(s, cols), rowInd, vals) == seq(cols, c => TriplesIn(s, rowInd, vals, c, |s|))
  {
    var p := TriplePointers(s, cols);
    assert p[0] == 0 by {
      if |s| > 0 {
        assert s[0] >= 0;
      }
      CountBelowAt(s, 0, 0);
    }
    assert p[cols] == |s| by {
      CountBelowAll(s, cols);
    }
    assert forall a, b :: 0 <= a <= b < |p| ==> p[a] <= p[b] by {
      forall a, b | 0 <= a <= b < |p|
        ensures p[a] <= p[b]
      {
        CountBelowMonotone(s, a, b);
      }
    }
    forall c | 0 <= c < cols
      ensures Slice(p, rowInd, vals, c) == TriplesIn(s, rowInd, vals, c, |s|)
    {
      TriplesInSlice(s, rowInd, vals, c, |s|);
      CountBelowMonotone(s, c, c + 1);
      assert CountBelow(s, c + 1) <= |s|;
    }
  }

  // ---------------------------------------------------------------------
  // Inferring the number of columns, `inferNumCol`.
  // ---------------------------------------------------------------------

  /** `Arrays.stream(a).max().getAsInt()` on a non-empty array. */
  function MaxOf(s: seq<int>): (m: int)
    requires |s| > 0
    ensures m in s && forall x :: x in s ==> x <= m
  {
    if |s| == 1 then s[0]
    else
      var init := s[..|s| - 1];
      assert s == init + [s[|s| - 1]];
      var m := MaxOf(init);
      if s[|s| - 1] > m then s[|s| - 1] else m
  }

  /** The index buffer shared by all rows of a CSR block: every column index,
      row after row. */
  function AllIndexes(rows: seq<seq<Cell>>): (r: seq<int>)
    ensures |r| == Total(rows)
  {
    if |rows| == 0 then [] else AllIndexes(rows[..|rows| - 1]) + Indexes(rows[|rows| - 1])
  }

  /** Some entry of the rows lies in column `x`. */
  predicate NamesColumn(rows: seq<seq<Cell>>, x: int)
  {
    exists i, k :: 0 <= i < |rows| && 0 <= k < |rows[i]| && rows[i][k].index == x
  }

  /** Every entry of the rows lies in a column of index at least 0. */
  predicate NonNegativeColumns(rows: seq<seq<Cell>>)
  {
    forall i, k :: 0 <= i < |rows| && 0 <= k < |rows[i]| ==> 0 <= rows[i][k].index
  }

  lemma {:induction false} AllIndexesMember(rows: seq<seq<Cell>>, x: int)
    ensures x in AllIndexes(rows) <==> NamesColumn(rows, x)
  {
    if |rows| > 0 {
      var n := |rows| - 1;
      var init := rows[..n];
      AllIndexesMember(init, x);
      if NamesColumn(rows, x) && !(x in Indexes(rows[n])) {
        var i, k :| 0 <= i < |rows| && 0 <= k < |rows[i]| && rows[i][k].index == x;
        assert i < n;
        assert init[i][k].index == x;
      }
      if NamesColumn(init, x) {
        var i, k :| 0 <= i < |init| && 0 <= k < |init[i]| && init[i][k].index == x;
        assert rows[i][k].index == x;
      }
      if x in Indexes(rows[n]) {
        var k :| 0 <= k < |rows[n]| && Indexes(rows[n])[k] == x;
        assert rows[n][k].index == x;
      }
    }
  }

  /** The running maximum over the row objects of an MCSR block, started at
      -1; `None` when an allocated row is empty, where the source's
      `getAsInt` throws. */
  function McsrMax(objs: seq<Option<seq<Cell>>>): Option<int>
  {
    if |objs| == 0 then Some(-1)
    else match McsrMax(objs[..|objs| - 1])
      case None => None
      case Some(m) =>
        var o := objs[|objs| - 1];
        if o.None? then Some(m)
        else if |o.value| == 0 then None
        else
          var r := MaxOf(Indexes(o.value));
          Some(if r > m then r else m)
  }

  /** The number of columns a conversion without an explicit `clen` uses:
      one past the largest column index of a row-major source, the column
      count of a column-major or CSC source. `None` where the source throws
      because an index buffer it takes the maximum of is empty. */
  function InferredCount(b: Block): Option<int>
  {
    match b
    case Csr(rows) => if Total(rows) == 0 then None else Some(MaxOf(AllIndexes(rows)) + 1)
    case Mcsr(objs) => if McsrMax(objs).None? then None else Some(McsrMax(objs).value + 1)
    case Mcsc(cols, _) => Some(|cols|)
    case Csc(ptr, _, _, _) => Some(|ptr| - 1)
  }

  /** What the source computes: the final `+ 1` is applied in every branch,
      also to the column counts of column-major and CSC sources. */
  function InferredCountAsWritten(b: Block): (r: Option<int>)
    ensures (b.Mcsc? || b.Csc?) ==> r.Some? && r.value == InferredCount(b).value + 1
    ensures (b.Csr? || b.Mcsr?) ==> r == InferredCount(b)
  {
    match b
    case Mcsc(cols, _) => Some(|cols| + 1)
    case Csc(ptr, _, _, _) => Some(|ptr|)
    case _ => InferredCount(b)
  }

  lemma {:induction false} McsrMaxPrefixNone(objs: seq<Option<seq<Cell>>>, i: nat)
    requires i <= |objs| && McsrMax(objs[..i]) == None
    ensures McsrMax(objs) == None
  {
    if i < |objs| {
      var n := |objs| - 1;
      assert objs[..n][..i] == objs[..i];
      McsrMaxPrefixNone(objs[..n], i);
    } else {
      assert objs[..i] == objs;
    }
  }

  /** `McsrMax` fails exactly when some allocated row is empty. */
  lemma {:induction false} McsrMaxNone(objs: seq<Option<seq<Cell>>>)
    ensures McsrMax(objs).None? <==> exists i :: 0 <= i < |objs| && objs[i] == Some([])
  {
    if |objs| > 0 {
      var n := |objs| - 1;
      var init := objs[..n];
      McsrMaxNone(init);
      if exists i :: 0 <= i < |objs| && objs[i] == Some([]) {
        var i :| 0 <= i < |objs| && objs[i] == Some([]);
        if i < n {
          assert init[i] == Some([]);
        }
      }
      if exists i :: 0 <= i < n && init[i] == Some([]) {
        var i :| 0 <= i < n && init[i] == Some([]);
        assert objs[i] == Some([]);
      }
    }
  }

  /** Every column index of an allocated row is at most `McsrMax`. */
  lemma {:induction false} McsrMaxBound(objs: seq<Option<seq<Cell>>>, m: int)
    requires McsrMax(objs) == Some(m)
    ensures forall i, k :: 0 <= i < |objs| && 0 <= k < |Content(objs[i])| ==> Content(objs[i])[k].index <= m
  {
    if |objs| > 0 {
      var n := |objs| - 1;
      var init := objs[..n];
      var m0 := McsrMax(init).value;
      McsrMaxBound(init, m0);
      assert forall i :: 0 <= i < n ==> init[i] == objs[i];
      var o := objs[n];
      if o.Some? {
        var r := MaxOf(Indexes(o.value));
        forall k | 0 <= k < |o.value|
          ensures o.value[k].index <= r
        {
          assert Indexes(o.value)[k] in Indexes(o.value);
        }
      }
    }
  }

  /** Unless it is the starting -1, `McsrMax` is the column of an entry. */
  lemma {:induction false} McsrMaxAttained(objs: seq<Option<seq<Cell>>>, m: int)
    requires McsrMax(objs) == Some(m) && m != -1
    ensures exists i, k :: 0 <= i < |objs| && 0 <= k < |Content(objs[i])| && Content(objs[i])[k].index == m
  {
    var n := |objs| - 1;
    var init := objs[..n];
    var m0 := McsrMax(init).value;
    var o := objs[n];
    if o.Some? && MaxOf(Indexes(o.value)) > m0 {
      var k :| 0 <= k < |Indexes(o.value)| && Indexes(o.value)[k] == m;
      assert Content(objs[n])[k].index == m;
    } else {
      McsrMaxAttained(init, m);
      var i, k :| 0 <= i < |init| && 0 <= k < |Content(init[i])| && Content(init[i])[k].index == m;
      assert objs[i] == init[i];
    }
  }

  /** For a CSR source: one past the largest column index is the least
      column count that covers every entry. */
  lemma CsrCountIsLeastCover(rows: seq<seq<Cell>>)
    requires Total(rows) > 0
    ensures var n := MaxOf(AllIndexes(rows)) + 1;
      && (NonNegativeColumns(rows) ==> ColumnsInRange(rows, n))
      && forall n' :: 0 <= n' < n ==> !ColumnsInRange(rows, n')
  {
    var m := MaxOf(AllIndexes(rows));
    AllIndexesMember(rows, m);
    var i0, k0 :| 0 <= i0 < |rows| && 0 <= k0 < |rows[i0]| && rows[i0][k0].index == m;
    forall i: int, k: int | 0 <= i < |rows| && 0 <= k < |rows[i]|
      ensures rows[i][k].index <= m
    {
      AllIndexesMember(rows, rows[i][k].index);
    }
  }

  /** For an MCSR source: one past the running maximum is the least column
      count that covers every entry. */
  lemma McsrCountIsLeastCover(objs: seq<Option<seq<Cell>>>, m: int)
    requires McsrMax(objs) == Some(m)
    ensures && (NonNegativeColumns(Present(objs)) ==> ColumnsInRange(Present(objs), m + 1))
            && forall n' :: 0 <= n' < m + 1 ==> !ColumnsInRange(Present(objs), n')
  {
    var rows := Present(objs);
    McsrMaxBound(objs, m);
    assert forall i :: 0 <= i < |rows| ==> rows[i] == Content(objs[i]);
    if m != -1 {
      McsrMaxAttained(objs, m);
      var i, k :| 0 <= i < |objs| && 0 <= k < |Content(objs[i])| && Content(objs[i])[k].index == m;
      assert rows[i][k].index == m;
    }
  }

  /** For a row-major source the inferred count is the least number of
      columns that covers every entry: no smaller count covers them all, and
      it covers them all when no column index is negative. The inference
      fails exactly when the source takes the maximum of an empty index
      buffer. */
  lemma InferredCountIsLeastCover(b: Block)
    requires b.Csr? || b.Mcsr?
    ensures InferredCount(b).None? <==>
      (if b.Csr? then Total(b.rows) == 0 else exists i :: 0 <= i < |b.rowObjs| && b.rowObjs[i] == Some([]))
    ensures InferredCount(b).Some? ==>
      var n := InferredCount(b).value;
      && (NonNegativeColumns(RowsOf(b)) ==> ColumnsInRange(RowsOf(b), n))
      && forall n' :: 0 <= n' < n ==> !ColumnsInRange(RowsOf(b), n')
  {
    if b.Csr? {
      if Total(b.rows) > 0 {
        CsrCountIsLeastCover(b.rows);
      }
    } else {
      McsrMaxNone(b.rowObjs);
      if McsrMax(b.rowObjs).Some? {
        McsrCountIsLeastCover(b.rowObjs, McsrMax(b.rowObjs).value);
      }
    }
  }

  /** The loop of `inferNumCol` over the rows of an MCSR block: the running
      maximum of the allocated rows' column indexes, started at -1. */
  method McsrMaxLoop(objs: seq<Option<seq<Cell>>>) returns (r: Option<int>)
    ensures r == McsrMax(objs)
  {
    var clen := -1;
    var i := 0;
    while i < |objs|
      invariant 0 <= i <= |objs|
      invariant McsrMax(objs[..i]) == Some(clen)
    {
      assert objs[..i + 1][..i] == objs[..i];
      if objs[i].Some? {
        var indexes := Indexes(objs[i].value);
        if |indexes| == 0 {
          McsrMaxPrefixNone(objs, i + 1);
          return None;
        }
        var max := MaxOf(indexes);
        if max > clen {
          clen := max;
        }
      }
      i := i + 1;
    }
    assert objs[..i] == objs;
    r := Some(clen);
  }

  /** `inferNumCol`: the running maximum over the rows of an MCSR block, the
      maximum of the shared index buffer of a CSR block, plus one; the column
      count of a column-major or CSC block. */
  method InferNumCol(b: Block) returns (r: Option<int>)
    ensures r == InferredCount(b)
  {
    match b
    case Mcsr(objs) =>
      var max := McsrMaxLoop(objs);
      r := if max.None? then None else Some(max.value + 1);
    case Mcsc(cols, _) =>
      r := Some(|cols|);
    case Csc(ptr, _, _, _) =>
      r := Some(|ptr| - 1);
    case Csr(rows) =>
      var indexes := AllIndexes(rows);
      if |indexes| == 0 {
        return None;
      }
      r := Some(MaxOf(indexes) + 1);
  }

  // ---------------------------------------------------------------------
  // `initialize`: dispatch on the kind of source block.
  // ---------------------------------------------------------------------

  /** A CSC source whose pointers are well formed and whose `_size` covers
      every entry; the other kinds of source carry no such condition. */
  predicate SourceWellFormed(b: Block)
  {
    b.Csc? ==> PtrShape(b.ptr, |b.indexes|, |b.values|) && b.ptr[|b.ptr| - 1] <= b.size
  }

  /** The columns a conversion must reproduce: those of a CSC or column-major
      source, and the transpose of a row-major source. */
  function ColumnView(b: Block, clen: int): seq<seq<Cell>>
    requires ConvertibleWith(b, clen) && SourceWellFormed(b)
  {
    match b
    case Csc(ptr, ix, vals, _) => ColumnsOf(ptr, ix, vals)
    case Mcsc(cols, _) => cols
    case _ => Transpose(RowsOf(b), clen)
  }

  /** The buffers of a CSC block converted from `b` with `clen` columns: a
      CSC source has its pointers copied and its index and value buffers
      trimmed to its `_size`; a column-major source is concatenated; a
      row-major source is transposed by counting sort. */
  method Initialize(b: Block, clen: int) returns (ptr: array<int>, ix: array<int>, vals: array<real>)
    requires ConvertibleWith(b, clen)
    ensures fresh(ptr) && fresh(ix) && fresh(vals)
    ensures !b.Csc? ==> ix.Length == SizeOf(b) && vals.Length == SizeOf(b)
    ensures b.Csc? ==>
      && ptr[..] == b.ptr
      && ix[..] == CopyOf(b.indexes, b.size, 0)
      && vals[..] == CopyOf(b.values, b.size, 0.0)
    ensures SourceWellFormed(b) ==>
      && PtrShape(ptr[..], ix.Length, vals.Length)
      && ptr[ptr.Length - 1] == SizeOf(b)
      && ColumnsOf(ptr[..], ix[..], vals[..]) == ColumnView(b, clen)
  {
    match b
    case Csc(p, i, v, size) =>
      ptr := new int[|p|](k requires 0 <= k < |p| => p[k]);
      ix := new int[size](k => if 0 <= k < |i| then i[k] else 0);
      vals := new real[size](k => if 0 <= k < |v| then v[k] else 0.0);
      assert ix[..] == CopyOf(i, size, 0);
      assert vals[..] == CopyOf(v, size, 0.0);
      assert ptr[..] == p;
      if SourceWellFormed(b) {
        CopyKeepsColumns(p, i, v, size);
      }
    case Mcsc(cols, _) =>
      ptr, ix, vals := ConcatColumns(cols);
      ghost var p := ptr[..];
      assert p[|cols|] == Total(cols) by {
        PointerCountsEntries(p, ix[..], vals[..], |cols|);
        assert ColumnsOf(p, ix[..], vals[..])[..|cols|] == cols;
      }
    case Csr(rows) =>
      ptr, ix, vals := CountingSort(rows, clen);
    case Mcsr(objs) =>
      ptr, ix, vals := CountingSort(Present(objs), clen);
  }

  /** For a column-major or CSC source, the count as written is one more
      than the number of columns of the block the conversion builds from
      it, whatever column count it is handed. */
  lemma InferredCountAsWrittenOverCounts(b: Block, clen: int)
    requires b.Mcsc? || b.Csc?
    requires ConvertibleWith(b, clen) && SourceWellFormed(b)
    ensures InferredCountAsWritten(b).Some? && InferredCount(b).Some?
    ensures InferredCount(b).value == |ColumnView(b, clen)|
    ensures InferredCountAsWritten(b).value == |ColumnView(b, clen)| + 1
  {
  }

  /** When no source row names a column twice, every column a row-major
      source converts to lists its rows strictly increasing, each below the
      row count. */
  lemma TransposeSorted(rows: seq<seq<Cell>>, clen: nat)
    requires DistinctColumns(rows)
    ensures forall c :: 0 <= c < clen ==>
      && RowsAscending(Transpose(rows, clen)[c])
      && forall k :: 0 <= k < |Transpose(rows, clen)[c]| ==> 0 <= Transpose(rows, clen)[c][k].index < |rows|
  {
    forall c | 0 <= c < clen
      ensures RowsAscending(Transpose(rows, clen)[c])
      ensures forall k :: 0 <= k < |Transpose(rows, clen)[c]| ==> 0 <= Transpose(rows, clen)[c][k].index < |rows|
    {
      ColumnOfAscending(rows, c);
    }
  }

  /** Every entry of a row-major source is found in the column it names,
      with its row and value, and the transposed view holds nothing else. */
  lemma TransposeMember(rows: seq<seq<Cell>>, clen: nat, c: int, i: int, v: real)
    requires 0 <= c < clen
    ensures Cell(i, v) in Transpose(rows, clen)[c] <==> 0 <= i < |rows| && Cell(c, v) in rows[i]
  {
    ColumnOfMember(rows, c, i, v);
  }
}
