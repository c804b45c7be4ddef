/** Vocabulary of the compressed-sparse-column (CSC) layout: the entries it
    stores, the column view that its three parallel buffers encode, and the
    counting helpers that every conversion relies on. */
module CscLayout {

  /** One stored entry. Inside a column `index` is the row; inside a row of a
      row-major source it is the column. Values are only moved, never computed. */
  datatype Cell = Cell(index: int, value: real)

  datatype Option<T> = None | Some(value: T)

  /** Sum of an integer sequence, folded from its last element. */
  function Sum(s: seq<int>): int
  {
    if |s| == 0 then 0 else Sum(s[..|s| - 1]) + s[|s| - 1]
  }

  /** Number of entries held by a list of rows or columns. */
  function Total(lines: seq<seq<Cell>>): nat
  {
    if |lines| == 0 then 0 else Total(lines[..|lines| - 1]) + |lines[|lines| - 1]|
  }

  /** The row (or column) indexes of a list of entries, in order. */
  function Indexes(line: seq<Cell>): (r: seq<int>)
    ensures |r| == |line|
    ensures forall k :: 0 <= k < |line| ==> r[k] == line[k].index
  {
    if |line| == 0 then [] else Indexes(line[..|line| - 1]) + [line[|line| - 1].index]
  }

  /** A pointer array `ptr` of a CSC block with index buffer length `ixLen` and
      value buffer length `valLen`: it starts at 0, never decreases, and its
      last element (the number of entries) fits in both buffers. */
  predicate PtrShape(ptr: seq<int>, ixLen: int, valLen: int)
  {
    && |ptr| >= 1
    && ptr[0] == 0
    && (forall a, b :: 0 <= a <= b < |ptr| ==> ptr[a] <= ptr[b])
    && ptr[|ptr| - 1] <= ixLen
    && ptr[|ptr| - 1] <= valLen
  }

  /** Column `c` of a CSC block: the entries in `[ptr[c], ptr[c+1])`. */
  function Slice(ptr: seq<int>, ix: seq<int>, vals: seq<real>, c: int): seq<Cell>
    requires PtrShape(ptr, |ix|, |vals|) && 0 <= c < |ptr| - 1
  {
    assert ptr[c] <= ptr[c + 1] <= ptr[|ptr| - 1];
    seq(ptr[c + 1] - ptr[c], k requires 0 <= k < ptr[c + 1] - ptr[c] => Cell(ix[ptr[c] + k], vals[ptr[c] + k]))
  }

  /** The logical content of a CSC block: one list of (row, value) per column. */
  function ColumnsOf(ptr: seq<int>, ix: seq<int>, vals: seq<real>): seq<seq<Cell>>
    requires PtrShape(ptr, |ix|, |vals|)
  {
    seq(|ptr| - 1, c requires 0 <= c < |ptr| - 1 => Slice(ptr, ix, vals, c))
  }

  /** Row indexes strictly increase along a column (no duplicates). */
  predicate RowsAscending(col: seq<Cell>)
  {
    forall a, b :: 0 <= a < b < |col| ==> col[a].index < col[b].index
  }

  /** Java's `Arrays.copyOf`: the first `n` elements of `s`, padded with the
      type's zero when `n` exceeds the length of `s`. */
  function CopyOf<T>(s: seq<T>, n: nat, zero: T): (r: seq<T>)
    ensures |r| == n
    ensures forall k :: 0 <= k < n ==> r[k] == (if k < |s| then s[k] else zero)
  {
    if n <= |s| then s[..n] else s + seq(n - |s|, _ => zero)
  }

  lemma {:induction false} SumOfZeros(s: seq<int>)
    requires forall k :: 0 <= k < |s| ==> s[k] == 0
    ensures Sum(s) == 0
  {
    if |s| > 0 {
      SumOfZeros(s[..|s| - 1]);
    }
  }

  /** Incrementing one histogram bucket increments the histogram's sum. */
  lemma {:induction false} SumIncrement(s: seq<int>, c: int)
    requires 0 <= c < |s|
    ensures Sum(s[c := s[c] + 1]) == Sum(s) + 1
  {
    var t := s[c := s[c] + 1];
    if c == |s| - 1 {
      assert t[..|t| - 1] == s[..|s| - 1];
    } else {
      assert t[..|t| - 1] == s[..|s| - 1][c := s[c] + 1];
      SumIncrement(s[..|s| - 1], c);
    }
  }

  /** A prefix of a list of lines never holds more entries than the whole. */
  lemma {:induction false} TotalPrefix(lines: seq<seq<Cell>>, m: nat)
    requires m <= |lines|
    ensures Total(lines[..m]) <= Total(lines)
  {
    if m < |lines| {
      assert lines[..m] == lines[..|lines| - 1][..m];
      TotalPrefix(lines[..|lines| - 1], m);
    } else {
      assert lines[..m] == lines;
    }
  }

  /** The pointer in front of column `m` counts the entries of all columns
      before `m`; in particular the last pointer counts every entry. */
  lemma {:induction false} PointerCountsEntries(ptr: seq<int>, ix: seq<int>, vals: seq<real>, m: nat)
    requires PtrShape(ptr, |ix|, |vals|) && m < |ptr|
    ensures Total(ColumnsOf(ptr, ix, vals)[..m]) == ptr[m]
  {
    var cols := ColumnsOf(ptr, ix, vals);
    if m > 0 {
      PointerCountsEntries(ptr, ix, vals, m - 1);
      assert cols[..m][..m - 1] == cols[..m - 1];
    }
  }

  /** Copying the buffers of a well-formed block trimmed to `n` entries, with
      `n` at least the number of entries, keeps its column view. */
  lemma CopyKeepsColumns(ptr: seq<int>, ix: seq<int>, vals: seq<real>, n: nat)
    requires PtrShape(ptr, |ix|, |vals|) && ptr[|ptr| - 1] <= n
    ensures PtrShape(ptr, n, n)
    ensures ColumnsOf(ptr, CopyOf(ix, n, 0), CopyOf(vals, n, 0.0)) == ColumnsOf(ptr, ix, vals)
  {
    var ix', vals' := CopyOf(ix, n, 0), CopyOf(vals, n, 0.0);
    forall c | 0 <= c < |ptr| - 1
      ensures Slice(ptr, ix', vals', c) == Slice(ptr, ix, vals, c)
    {
      assert ptr[c] <= ptr[c + 1] <= ptr[|ptr| - 1];
    }
  }
}
