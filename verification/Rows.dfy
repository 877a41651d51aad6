/** Rows of pixels, some distance apart, packed back to back. */
module Rows {
  import opened Bytes

  predicate RowsIn(length: nat, row: nat, pitch: nat, rows: nat) {
    row <= pitch && (rows == 0 || Times(rows - 1, pitch) + row <= length)
  }

  /** Rows of `row` bytes, `pitch` apart in the source, packed back to back. */
  function PackedRows(source: seq<byte>, row: nat, pitch: nat, rows: nat): (r: seq<byte>)
    requires RowsIn(|source|, row, pitch, rows)
    ensures |r| == Times(rows, row)
    decreases rows
  {
    if rows == 0 then []
    else
      var at := Times(rows - 1, pitch);
      PackedRows(source, row, pitch, rows - 1) + source[at..at + row]
  }

  lemma {:induction false} PackedRow(source: seq<byte>, row: nat, pitch: nat, rows: nat, y: nat, x: nat)
    requires y < rows && x < row && RowsIn(|source|, row, pitch, rows)
    ensures Times(y, row) + x < Times(rows, row) && Times(y, pitch) + x < |source|
    ensures PackedRows(source, row, pitch, rows)[Times(y, row) + x] == source[Times(y, pitch) + x]
    decreases rows
  {
    if y < rows - 1 { PackedRow(source, row, pitch, rows - 1, y, x); }
  }

  /** Byte `x` of row `y` of the source is at `y * row + x` of the packed pixels. */
  lemma PackedAt(source: seq<byte>, row: nat, pitch: nat, rows: nat, y: nat, x: nat)
    requires y < rows && x < row && RowsIn(|source|, row, pitch, rows)
    ensures 0 <= y * row + x < |PackedRows(source, row, pitch, rows)|
    ensures 0 <= y * pitch + x < |source|
    ensures PackedRows(source, row, pitch, rows)[y * row + x] == source[y * pitch + x]
  {
    PackedRow(source, row, pitch, rows, y, x);
    TimesIsProduct(y, row);
    TimesIsProduct(y, pitch);
  }
}
