/** The compressed-sparse-column block itself: three buffers (column
    pointers, row indexes, values) plus the entry count, row count and
    inferred column count it records, the constructors that fill them, and
    the read accessors over a column. */
module SparseBlockCsc {
  import opened CscLayout
  import opened Transposition
  import opened CscConversion

  class CSC {
    /** Column pointers, one more than the number of columns. */
    var ptr: array<int>
    /** Row index of every entry, column after column; may have spare room. */
    var indexes: array<int>
    /** Value of every entry, aligned with `indexes`; may have spare room. */
    var values: array<real>
    /** The `_size` field: the entry count the constructor was given. */
    var size: int
    /** The `_rlen` field: the row count of the source block, -1 if unknown. */
    var rlen: int
    /** The `_clenInferred` field: the column count used for a conversion, -1 if unset. */
    var clenInferred: int

    /** The buffers describe a block: pointers start at 0, never decrease,
        and the entries they delimit fit in both buffers. */
    ghost predicate Valid()
      reads this, ptr
    {
      PtrShape(ptr[..], indexes.Length, values.Length)
    }

    /** The block's content: one list of (row, value) per column. */
    ghost function Columns(): seq<seq<Cell>>
      reads this, ptr, indexes, values
      requires Valid()
    {
      ColumnsOf(ptr[..], indexes[..], values[..])
    }

    /** `SparseBlockCSC(int clen, int capacity)`: `clen` empty columns and
        room for `capacity` entries. A `clen` of -1 gives an empty pointer
        array, which describes no block. */
    constructor Empty(clen: int, capacity: nat)
      requires clen >= -1
      ensures fresh(ptr) && fresh(indexes) && fresh(values)
      ensures ptr.Length == clen + 1 && indexes.Length == capacity && values.Length == capacity
      ensures size == 0 && rlen == -1 && clenInferred == -1
      ensures clen >= 0 ==> Valid() && Columns() == seq(clen, _ => [])
    {
      ptr := new int[clen + 1](_ => 0);
      indexes := new int[capacity](_ => 0);
      values := new real[capacity](_ => 0.0);
      size := 0;
      rlen := -1;
      clenInferred := -1;
      new;
      if clen >= 0 {
        assert Valid();
        forall c | 0 <= c < clen
          ensures Columns()[c] == []
        {
        }
      }
    }

    /** `SparseBlockCSC(int clen, int capacity, int size)`: as `Empty`, but the
        `_size` field records `size` while the pointers still describe empty
        columns. */
    constructor EmptyWithSize(clen: int, capacity: nat, size: int)
      requires clen >= -1
      ensures fresh(ptr) && fresh(indexes) && fresh(values)
      ensures ptr.Length == clen + 1 && indexes.Length == capacity && values.Length == capacity
      ensures this.size == size && rlen == -1 && clenInferred == -1
      ensures clen >= 0 ==> Valid() && Columns() == seq(clen, _ => []) && Size() == 0
    {
      ptr := new int[clen + 1](_ => 0);
      indexes := new int[capacity](_ => 0);
      values := new real[capacity](_ => 0.0);
      this.size := size;
      rlen := -1;
      clenInferred := -1;
      new;
      if clen >= 0 {
        assert Valid();
        forall c | 0 <= c < clen
          ensures Columns()[c] == []
        {
        }
      }
    }

    /** `SparseBlockCSC(int[] rowPtr, int[] rowInd, double[] values, int nnz)`:
        adopts the caller's buffers without copying them. */
    constructor FromBuffers(rowPtr: array<int>, rowInd: array<int>, vals: array<real>, nnz: int)
      ensures ptr == rowPtr && indexes == rowInd && values == vals
      ensures size == nnz && rlen == -1 && clenInferred == -1
    {
      ptr := rowPtr;
      indexes := rowInd;
      values := vals;
      size := nnz;
      rlen := -1;
      clenInferred := -1;
    }

    /** `SparseBlockCSC(SparseBlock sblock, int clen)`: converts `sblock`
        with `clen` columns; the block holds the source's columns (transposed
        for a row-major source) and `_size` is the source's entry count. */
    constructor FromBlock(sblock: Block, clen: int)
      requires ConvertibleWith(sblock, clen)
      ensures fresh(ptr) && fresh(indexes) && fresh(values)
      ensures clenInferred == clen && rlen == NumRows(sblock) && size == SizeOf(sblock)
      ensures !sblock.Csc? ==> indexes.Length == size && values.Length == size
      ensures sblock.Csc? ==>
        && ptr[..] == sblock.ptr
        && indexes[..] == CopyOf(sblock.indexes, sblock.size, 0)
        && values[..] == CopyOf(sblock.values, sblock.size, 0.0)
      ensures SourceWellFormed(sblock) ==>
        && Valid() && Size() == size && Columns() == ColumnView(sblock, clen)
    {
      clenInferred := clen;
      rlen := NumRows(sblock);
      size := SizeOf(sblock);
      var p, ix, v := Initialize(sblock, clen);
      ptr, indexes, values := p, ix, v;
    }

    /** `SparseBlockCSC(SparseBlock sblock)`: as `FromBlock`, with the column
        count inferred from the source. */
    constructor FromBlockInferred(sblock: Block)
      requires InferredCount(sblock).Some?
      requires ConvertibleWith(sblock, InferredCount(sblock).value)
      ensures fresh(ptr) && fresh(indexes) && fresh(values)
      ensures clenInferred == InferredCount(sblock).value
      ensures rlen == NumRows(sblock) && size == SizeOf(sblock)
      ensures !sblock.Csc? ==> indexes.Length == size && values.Length == size
      ensures sblock.Csc? ==>
        && ptr[..] == sblock.ptr
        && indexes[..] == CopyOf(sblock.indexes, sblock.size, 0)
        && values[..] == CopyOf(sblock.values, sblock.size, 0.0)
      ensures SourceWellFormed(sblock) ==>
        && Valid() && Size() == size && Columns() == ColumnView(sblock, clenInferred)
    {
      var inferred := InferNumCol(sblock);
      clenInferred := inferred.value;
      rlen := NumRows(sblock);
      size := SizeOf(sblock);
      var p, ix, v := Initialize(sblock, inferred.value);
      ptr, indexes, values := p, ix, v;
    }

    /** `SparseBlockCSC(SparseRow[] cols, int nnz)`: one column per row object,
        a null or empty one giving an empty column, with room for `nnz`
        entries. */
    constructor FromColumns(cols: seq<Option<seq<Cell>>>, nnz: nat)
      requires Total(Present(cols)) <= nnz
      ensures fresh(ptr) && fresh(indexes) && fresh(values)
      ensures clenInferred == |cols| && size == nnz && rlen == -1
      ensures indexes.Length == nnz && values.Length == nnz
      ensures Valid() && Columns() == Present(cols) && Size() == Total(Present(cols))
    {
      clenInferred := |cols|;
      size := nnz;
      rlen := -1;
      var p, ix, v := ConcatSparseRows(cols, nnz);
      ptr, indexes, values := p, ix, v;
    }

    /** `SparseBlockCSC(int cols, int[] rowInd, int[] colInd, double[] values)`:
        one entry per value, its row from `rowInd` and its column from
        `colInd`. A column index of -1 is let through; any other index
        outside `[0, cols]` makes the fill throw. When the column indexes are
        sorted, column `c`'s pointer counts the triples before column `c`
        (so pointer 0 counts the triples of column -1); when they moreover lie in
        `[0, cols)` and every triple has a row index, the block holds exactly
        the triples, each in its column, in triple order. */
    constructor FromTriples(cols: nat, rowInd: seq<int>, colInd: seq<int>, vals: seq<real>)
      requires |vals| <= |colInd|
      requires forall t :: 0 <= t < |vals| ==> -1 <= colInd[t] <= cols
      ensures fresh(ptr) && fresh(indexes) && fresh(values)
      ensures clenInferred == cols && size == |vals| && rlen == -1
      ensures indexes[..] == rowInd && values[..] == vals && ptr.Length == cols + 1
      ensures (forall t :: 0 <= t < |vals| ==> 0 <= colInd[t]) ==> ptr[0] == 0
      ensures NonDecreasing(colInd[..|vals|]) ==> ptr[..] == TriplePointers(colInd[..|vals|], cols)
      ensures NonDecreasing(colInd[..|vals|]) && |vals| <= |rowInd|
              && (forall t :: 0 <= t < |vals| ==> 0 <= colInd[t] < cols) ==>
        && Valid() && Size() == size
        && Columns() == seq(cols, c => TriplesIn(colInd[..|vals|], rowInd, vals, c, |vals|))
    {
      var nnz := |vals|;
      indexes := new int[|rowInd|](k requires 0 <= k < |rowInd| => rowInd[k]);
      values := new real[nnz](k requires 0 <= k < nnz => vals[k]);
      size := nnz;
      clenInferred := cols;
      rlen := -1;
      var p := FillPointers(cols, colInd, nnz);
      ptr := p;
      new;
      ghost var s := colInd[..nnz];
      assert indexes[..] == rowInd && values[..] == vals;
      if NonDecreasing(s) {
        assert ptr[..] == TriplePointers(s, cols);
        if nnz <= |rowInd| && forall t :: 0 <= t < nnz ==> 0 <= colInd[t] < cols {
          TriplesColumns(s, rowInd, vals, cols);
        }
      }
    }

    /** `SparseBlockCSC(int cols, int nnz, int[] rowInd)`, which the source
        leaves unfinished: the row indexes are copied (trimmed or padded to
        `nnz`), every value is 1, and the pointers stay zero, so every column
        is empty. */
    constructor Unfinished(cols: int, nnz: nat, rowInd: seq<int>)
      requires cols >= -1
      ensures fresh(ptr) && fresh(indexes) && fresh(values)
      ensures clenInferred == cols && size == nnz && rlen == -1
      ensures indexes[..] == CopyOf(rowInd, nnz, 0)
      ensures values[..] == seq(nnz, _ => 1.0)
      ensures ptr[..] == seq(cols + 1, _ => 0)
      ensures cols >= 0 ==> Valid() && Columns() == seq(cols, _ => []) && Size() == 0
    {
      clenInferred := cols;
      ptr := new int[cols + 1](_ => 0);
      indexes := new int[nnz](k => if 0 <= k < |rowInd| then rowInd[k] else 0);
      values := new real[nnz](_ => 1.0);
      size := nnz;
      rlen := -1;
      new;
      assert indexes[..] == CopyOf(rowInd, nnz, 0);
      if cols >= 0 {
        assert Valid();
        forall c | 0 <= c < cols
          ensures Columns()[c] == []
        {
        }
      }
    }

    /** `numCols()`: the number of columns, one less than the pointers. */
    function NumCols(): (n: int)
      reads this, ptr, indexes, values
      ensures n == ptr.Length - 1
      ensures Valid() ==> n == |Columns()|
    {
      ptr.Length - 1
    }

    /** `size()`: the number of entries, read off the last pointer. */
    function Size(): (n: int)
      reads this, ptr, indexes, values
      requires ptr.Length >= 1
      ensures Valid() ==> n == Total(Columns())
    {
      var p := ptr[..];
      var n := ptr[ptr.Length - 1];
      assert Valid() ==> n == Total(Columns()) by {
        if Valid() {
          PointerCountsEntries(p, indexes[..], values[..], ptr.Length - 1);
          assert Columns()[..ptr.Length - 1] == Columns();
        }
      }
      n
    }

    /** `size(int c)`: the number of entries of column `c`. */
    function ColSize(c: int): (n: int)
      reads this, ptr, indexes, values
      requires 0 <= c < ptr.Length - 1
      ensures Valid() ==> n == |Columns()[c]|
    {
      ptr[c + 1] - ptr[c]
    }

    /** `pos(int c)`: where column `c` starts in the index and value buffers.
        It counts the entries of the columns before `c`, and column `c`'s
        entries are the next `ColSize(c)` positions of both buffers. */
    function Pos(c: int): (p: int)
      reads this, ptr, indexes, values
      requires 0 <= c < ptr.Length
      ensures Valid() ==> p == Total(Columns()[..c])
      ensures Valid() && c < ptr.Length - 1 ==>
        forall k :: 0 <= k < |Columns()[c]| ==>
          0 <= p + k < indexes.Length && p + k < values.Length
          && Columns()[c][k] == Cell(indexes[p + k], values[p + k])
    {
      var p := ptr[c];
      assert Valid() ==> p == Total(Columns()[..c]) by {
        if Valid() {
          PointerCountsEntries(ptr[..], indexes[..], values[..], c);
        }
      }
      assert Valid() && c < ptr.Length - 1 ==>
        forall k :: 0 <= k < |Columns()[c]| ==>
          0 <= p + k < indexes.Length && p + k < values.Length
          && Columns()[c][k] == Cell(indexes[p + k], values[p + k]) by {
        if Valid() && c < ptr.Length - 1 {
          assert ptr[c] <= ptr[c + 1] <= ptr[ptr.Length - 1];
        }
      }
      p
    }
  }
}
