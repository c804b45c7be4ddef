# SparseBlockCSC in Dafny

A model of SystemDS's compressed-sparse-column block, `SparseBlockCSC`. The
block keeps three buffers:

- `_ptr` holds one pointer per column plus one.
- `_indexes` holds the row index of every entry, column after column.
- `_values` holds the value of every entry, aligned with `_indexes`.

It also records three counts: the entries (`_size`), the rows (`_rlen`) and
the columns used for a conversion (`_clenInferred`).

The model covers how the block is built:

- empty, with a given capacity;
- from caller-owned buffers;
- by converting another sparse block:
  - a CSC source is copied;
  - a column-major (MCSC) source is concatenated;
  - a row-major (CSR, DCSR, MCSR) source is transposed by a three-pass counting sort;
- from an array of column rows;
- from (row, column, value) triples sorted by column;
- with the column count inferred from the source block.

It also covers the read accessors `numCols`, `size`, `size(c)` and `pos(c)`.

Modules:

- `CscLayout` (layout.dfy) defines the vocabulary:
  - entries as `Cell(index, value)`;
  - `PtrShape`, the well-formedness of a pointer array;
  - `ColumnsOf`, the column view that the three buffers encode;
  - Java's `Arrays.copyOf`.
- `Transposition` (transposition.dfy) gives reference definitions, with their lemmas:
  - the column-major view of a row-major source (`ColumnOf`, `Transpose`);
  - the position of a column boundary in column-sorted triples (`CountBelow`).
- `CscConversion` (conversion.dfy) holds the conversion algorithms as
  imperative methods over arrays. Each is proved against the reference
  definitions. It also holds the column-count inference.
- `SparseBlockCsc` (sparse_block_csc.dfy) holds the class `CSC`:
  - its fields;
  - its validity predicate;
  - its abstract content `Columns()`;
  - its constructors and accessors.

Other sparse block classes are represented by the datatype
`CscConversion.Block`. It keeps only what the conversion reads from a source:
rows or columns of (index, value) entries, null row objects, and another CSC
block's buffers.

## Model

| member | source | states |
|---|---|---|
| SparseBlockCsc.CSC.Empty | src/main/java/org/apache/sysds/runtime/data/SparseBlockCSC.java:39-44 | fresh buffers: `clen + 1` zero pointers and room for `capacity` entries; for `clen >= 0` a valid block of `clen` empty columns |
| SparseBlockCsc.CSC.EmptyWithSize | src/main/java/org/apache/sysds/runtime/data/SparseBlockCSC.java:46-51 | as `Empty`, with `_size` recording the given size while `size()` reads 0 |
| SparseBlockCsc.CSC.FromBuffers | src/main/java/org/apache/sysds/runtime/data/SparseBlockCSC.java:53-58 | the block adopts the caller's three arrays themselves (aliasing, no copy) and the given size |
| SparseBlockCsc.CSC.FromBlock | src/main/java/org/apache/sysds/runtime/data/SparseBlockCSC.java:60-65 | fresh buffers, sharing none with the source, of exactly the source's entry count for MCSC and row-major sources; records `clen`, the source's row count and entry count. A CSC source's pointers are copied and its buffers trimmed or padded to its `_size`. For a well-formed source the block is valid, `size()` equals `_size`, and its columns are the source's columns (the transpose for a row-major source) |
| SparseBlockCsc.CSC.FromBlockInferred | src/main/java/org/apache/sysds/runtime/data/SparseBlockCSC.java:67-72 | as `FromBlock` with the inferred column count: fresh buffers, a CSC source's pointers copied and its buffers trimmed or padded to its `_size`, and for a well-formed source a valid block with the source's columns |
| SparseBlockCsc.CSC.FromColumns | src/main/java/org/apache/sysds/runtime/data/SparseBlockCSC.java:165-185 | a valid block of fresh `nnz`-entry buffers whose column `i` is the content of `cols[i]` (empty for a null column); `size()` counts every entry |
| SparseBlockCsc.CSC.FromTriples | src/main/java/org/apache/sysds/runtime/data/SparseBlockCSC.java:187-205 | fresh buffers, copies of the row indexes and values; pointer 0 is 0 when no column index is -1. For triples sorted by column, pointer `c` counts the triples in columns before `c` (so leading -1 triples are counted by pointer 0); when moreover every column lies in `[0, cols)`, column `c` holds exactly the triples of column `c`, in triple order |
| SparseBlockCsc.CSC.Unfinished | src/main/java/org/apache/sysds/runtime/data/SparseBlockCSC.java:207-219 | row indexes copied to `nnz`, every value 1, all pointers zero, so every column is empty |
| SparseBlockCsc.CSC.NumCols | src/main/java/org/apache/sysds/runtime/data/SparseBlockCSC.java:275-277 | one less than the pointer count, which is the number of columns of the content |
| SparseBlockCsc.CSC.Size | src/main/java/org/apache/sysds/runtime/data/SparseBlockCSC.java:309-312 | the last pointer is the number of entries of all columns |
| SparseBlockCsc.CSC.ColSize | src/main/java/org/apache/sysds/runtime/data/SparseBlockCSC.java:314-317 | the difference of two pointers is the length of that column |
| SparseBlockCsc.CSC.Pos | src/main/java/org/apache/sysds/runtime/data/SparseBlockCSC.java:363-366 | column `c` starts after the entries of the columns before it, and its entries are the next positions of both buffers |
| CscConversion.Initialize | src/main/java/org/apache/sysds/runtime/data/SparseBlockCSC.java:74-163 | dispatch on the source kind; the buffers are fresh, and for MCSC and row-major sources hold exactly the source's entry count. A CSC source is copied exactly. For every well-formed source the pointers are well formed, the last pointer is the source's entry count, and the column view is that of the source (transposed for row-major sources) |
| CscConversion.CountRow | src/main/java/org/apache/sysds/runtime/data/SparseBlockCSC.java:119-127 | scanning one row adds, to each column bucket, the number of that row's entries in the column, and adds the row length to the histogram's sum |
| CscConversion.Histogram | src/main/java/org/apache/sysds/runtime/data/SparseBlockCSC.java:116-128 | bucket `j` is the number of entries of column `j`; the buckets sum to the entry count |
| CscConversion.PointerPrefixSum | src/main/java/org/apache/sysds/runtime/data/SparseBlockCSC.java:130-135 | pointers start at 0, step by the bucket counts, never decrease, and end at the histogram's sum |
| CscConversion.ScatterStep | src/main/java/org/apache/sysds/runtime/data/SparseBlockCSC.java:153-158 | writing one entry at its column cursor and advancing the cursor keeps every column's filled prefix in place and every cursor inside its slice |
| CscConversion.ScatterRoom | src/main/java/org/apache/sysds/runtime/data/SparseBlockCSC.java:153-158 | the cursor of the next entry's column is still inside that column's slice |
| CscConversion.ScatterComplete | src/main/java/org/apache/sysds/runtime/data/SparseBlockCSC.java:146-161 | once every cursor reached the next column's start, the buffers show exactly the scattered columns |
| CscConversion.ScatterRow | src/main/java/org/apache/sysds/runtime/data/SparseBlockCSC.java:148-160 | scattering one row appends its entries, relabelled with the row index, to their columns |
| CscConversion.Scatter | src/main/java/org/apache/sysds/runtime/data/SparseBlockCSC.java:137-161 | fresh buffers whose column view is the transpose of the source |
| CscConversion.CountingSort | src/main/java/org/apache/sysds/runtime/data/SparseBlockCSC.java:110-162 | fresh buffers; pointer steps are the column counts, the last pointer is the entry count, and the column view is the transpose |
| CscConversion.TransposeMember | src/main/java/org/apache/sysds/runtime/data/SparseBlockCSC.java:146-161 | an entry is in converted column `c` with row `i` and value `v` iff row `i` of the source holds `v` in column `c` |
| CscConversion.TransposeSorted | src/main/java/org/apache/sysds/runtime/data/SparseBlockCSC.java:146-161 | with no column repeated in a row, every converted column lists strictly increasing rows below the row count |
| CscConversion.CopyColumn | src/main/java/org/apache/sysds/runtime/data/SparseBlockCSC.java:100-103 | the column's entries land at the given offset; positions before it and after the copied range are untouched |
| CscConversion.AppendColumn | src/main/java/org/apache/sysds/runtime/data/SparseBlockCSC.java:104 | closing a slice with a new pointer grows the column view by exactly that column |
| CscConversion.ConcatStep | src/main/java/org/apache/sysds/runtime/data/SparseBlockCSC.java:97-107 | copying the next column extends the concatenation invariant by one column |
| CscConversion.ConcatColumns | src/main/java/org/apache/sysds/runtime/data/SparseBlockCSC.java:87-108 | an MCSC source gives fresh, well-formed buffers whose column view is the source's columns |
| CscConversion.AppendColumnRow | src/main/java/org/apache/sysds/runtime/data/SparseBlockCSC.java:175-183 | one loop pass: a non-empty column is copied at the running position and the next pointer is set |
| CscConversion.ConcatRowsLoop | src/main/java/org/apache/sysds/runtime/data/SparseBlockCSC.java:174-184 | after the loop, all column rows are concatenated in order |
| CscConversion.ConcatSparseRows | src/main/java/org/apache/sysds/runtime/data/SparseBlockCSC.java:165-185 | fresh buffers whose column view is the columns' contents (null and empty ones give empty slices); the last pointer counts all entries |
| CscConversion.Fill | src/main/java/org/apache/sysds/runtime/data/SparseBlockCSC.java:200 | `Arrays.fill` sets exactly `[from, to)` and leaves the rest |
| CscConversion.FillPointers | src/main/java/org/apache/sysds/runtime/data/SparseBlockCSC.java:195-203 | indexes in `[-1, cols]` pass; with no -1 pointer 0 stays 0; for column-sorted triples, pointer `c` is the number of triples in columns before `c` |
| CscConversion.TriplesInSlice | src/main/java/org/apache/sysds/runtime/data/SparseBlockCSC.java:196-203 | the triples of column `c` seen so far are those of its pointer slice |
| CscConversion.TriplesColumns | src/main/java/org/apache/sysds/runtime/data/SparseBlockCSC.java:187-205 | the single-pass pointers are well formed, end at the triple count, and column `c` holds exactly the triples of column `c` |
| CscConversion.MaxOf | src/main/java/org/apache/sysds/runtime/data/SparseBlockCSC.java:228 | `max().getAsInt()` on a non-empty array: an element that bounds all others |
| CscConversion.AllIndexesMember | src/main/java/org/apache/sysds/runtime/data/SparseBlockCSC.java:242 | the shared CSR index buffer holds exactly the column indexes of the entries |
| CscConversion.McsrMaxLoop | src/main/java/org/apache/sysds/runtime/data/SparseBlockCSC.java:223-233 | the MCSR loop computes the running maximum, failing on an allocated empty row |
| CscConversion.McsrMaxNone | src/main/java/org/apache/sysds/runtime/data/SparseBlockCSC.java:225-231 | the MCSR maximum fails iff some allocated row is empty |
| CscConversion.McsrMaxBound | src/main/java/org/apache/sysds/runtime/data/SparseBlockCSC.java:225-231 | every column index of an allocated row is at most the running maximum |
| CscConversion.McsrMaxAttained | src/main/java/org/apache/sysds/runtime/data/SparseBlockCSC.java:225-231 | a running maximum other than -1 is the column of some entry |
| CscConversion.CsrCountIsLeastCover | src/main/java/org/apache/sysds/runtime/data/SparseBlockCSC.java:241-245 | one past the largest CSR column index is the least column count covering all entries |
| CscConversion.McsrCountIsLeastCover | src/main/java/org/apache/sysds/runtime/data/SparseBlockCSC.java:223-233 | one past the MCSR maximum is the least column count covering all entries |
| CscConversion.InferredCountIsLeastCover | src/main/java/org/apache/sysds/runtime/data/SparseBlockCSC.java:221-246 | for row-major sources: the inference fails exactly on an empty index buffer, and otherwise yields the least covering column count |
| CscConversion.InferredCountAsWritten | src/main/java/org/apache/sysds/runtime/data/SparseBlockCSC.java:221-246 | the count as written: one more than the corrected count for MCSC and CSC sources, equal to it for row-major sources |
| CscConversion.InferNumCol | src/main/java/org/apache/sysds/runtime/data/SparseBlockCSC.java:221-246 | computes the corrected inferred count (see Findings) |
| CscConversion.InferredCountAsWrittenOverCounts | src/main/java/org/apache/sysds/runtime/data/SparseBlockCSC.java:234-245 | for MCSC and CSC sources the count as written is one more than the columns of the block built |
| Transposition.ColumnOfMember | src/main/java/org/apache/sysds/runtime/data/SparseBlockCSC.java:153-158 | an entry is in a column of the transpose iff the source row holds it in that column |
| Transposition.ColumnOfAscending | src/main/java/org/apache/sysds/runtime/data/SparseBlockCSC.java:147-160 | rows are visited in increasing order, so each column's rows increase |
| Transposition.TripleInColumnSlice | src/main/java/org/apache/sysds/runtime/data/SparseBlockCSC.java:196-203 | a sorted triple lies in column `c`'s pointer range iff its column is `c` |
| Transposition.BelowIsPrefix | src/main/java/org/apache/sysds/runtime/data/SparseBlockCSC.java:196-203 | in sorted column indexes the triples below `c` are a prefix of length `CountBelow` |
| Transposition.CountBelowAt | src/main/java/org/apache/sysds/runtime/data/SparseBlockCSC.java:199-200 | when the column jumps past `c` at triple `i`, the pointer of `c` is `i` |
| CscLayout.PointerCountsEntries | src/main/java/org/apache/sysds/runtime/data/SparseBlockCSC.java:363-366 | pointer `m` equals the number of entries of the columns before `m` |
| CscLayout.CopyKeepsColumns | src/main/java/org/apache/sysds/runtime/data/SparseBlockCSC.java:82-84 | trimming the buffers of a well-formed block to at least its entry count keeps its columns |
| CscLayout.CopyOf | src/main/java/org/apache/sysds/runtime/data/SparseBlockCSC.java:83-84 | `Arrays.copyOf`: the first `n` elements, padded with zeros |
| CscLayout.SumIncrement | src/main/java/org/apache/sysds/runtime/data/SparseBlockCSC.java:125 | incrementing one bucket increments the histogram's sum |

## Left out

- The `SparseBlockCSC(int clen)` constructor at src/main/java/org/apache/sysds/runtime/data/SparseBlockCSC.java:35-37 delegates with the library constant `INIT_CAPACITY`. That constant is not part of this model.
- The `_size > Integer.MAX_VALUE` guard in `initialize` cannot fire for an `int` field; 32-bit overflow of sizes and pointers is not modelled.
- Exceptions the source throws are preconditions, not error results:
  - a column index out of range in a row-major source (`ColumnsInRange`);
  - a too-small `nnz` for the column-rows constructor;
  - in the triples constructor, fewer column indexes than values (an out-of-bounds read of `colInd`);
  - in the triples constructor, a column index below -1 or above `cols` (an `Arrays.fill` range error). A -1 at any position is accepted, as in the source.
  - a CSC source with no pointers or a negative `_size`.
- SparseBlockCsc.CSC.FromBlockInferred: requires the inference to succeed; where `getAsInt` throws, the model's `InferNumCol` returns `None` instead.
- SparseBlockCsc.CSC.FromBlockInferred: uses the corrected inferred count (see Findings), not the count as written.
- Index buffers of source rows are taken to hold exactly their entries. Spare capacity, which `indexes()` may expose and `max()` would then read, is not modelled.
- The MCSC branch reads every column object. A null column (a `NullPointerException` in the source) is not representable in `Block.Mcsc`.
- Values are `real`; doubles are only moved, never computed with, so rounding plays no part.
- Apart from `numCols`, `size`, `size(c)` and `pos`, the interface methods at src/main/java/org/apache/sysds/runtime/data/SparseBlockCSC.java:250-449 are stubs returning constants or doing nothing. They are not modelled beyond `numRows()`'s constant 6, which a conversion from a CSC block reads. This covers `allocate`, `compact`, `isThreadSafe`, `isContiguous`, `isAllocated`, `reset`, `isEmpty`, range `size`, `checkValidity`, `getExactSizeInMemory`, `set`, `add`, `append`, `setIndexRange`, `deleteIndexRange`, `sort`, `get`, `posFIndexLTE`/`GTE`/`GT`, the iterators and `toString`.
- `indexes(r)`, `values(r)`, `indexesCol` and `valuesCol` return the whole buffers. `posCol` duplicates `pos`. They add nothing beyond the fields and `Pos`.
- The other block classes (CSR, DCSR, MCSR, MCSC) are represented by their content only, not by their own buffers.

## Findings

| source | as written | input that shows it | evidently intended | confidence | as-written member | corrected member |
|---|---|---|---|---|---|---|
| src/main/java/org/apache/sysds/runtime/data/SparseBlockCSC.java:234-245 | the final `+= 1` is applied after every branch of `inferNumCol`, also where `_clenInferred` was set to a column count (MCSC `getCols().length`, CSC `numCols()`) rather than a largest index | an MCSC source with one column gives `_clenInferred == 2` | the column count itself for MCSC and CSC sources; one past the largest index only for row-major sources | not executed | CscConversion.InferredCountAsWrittenOverCounts | CscConversion.InferNumCol |
