/** How many rows an output of ulpf/sinks/compaction.py gets, without division. */
module CompactionSize {
  import opened Compaction

  /** In whole numbers, a row counting as at least one byte: as many rows as fit the target and no more, but
      never none. */
  lemma RowsPerFileFits(rows: nat, bytesBefore: nat, targetBytes: nat)
    requires rows > 0
    ensures var r, bytes := RowsPerFile(rows, bytesBefore, targetBytes), if bytesBefore > rows then bytesBefore else rows;
      && (r == 1 || r * bytes <= targetBytes * rows)
      && targetBytes * rows < (r + 1) * bytes
  {
    hide RowsPerFile, AverageRowBytes, SizeOf, Times;
    var r, average := RowsPerFile(rows, bytesBefore, targetBytes), AverageRowBytes(rows, bytesBefore);
    var bytes := if bytesBefore > rows then bytesBefore else rows;
    AverageIs(rows, bytesBefore);
    WholeRows(r, rows, bytes, average);
    WholeRows(r + 1, rows, bytes, average);
    Scaled(targetBytes as real, SizeOf(r + 1, average), rows as real);
    Product(targetBytes, rows);
    if r > 1 {
      Scaled(SizeOf(r, average), targetBytes as real, rows as real);
    }
  }

  lemma AverageIs(rows: nat, bytesBefore: nat)
    requires rows > 0
    ensures Times(AverageRowBytes(rows, bytesBefore), rows as real) == (if bytesBefore > rows then bytesBefore else rows) as real
  {
    var q := bytesBefore as real / rows as real;
    assert q * rows as real == bytesBefore as real;
    if bytesBefore > rows {
      assert q > 1.0 by {
        if q <= 1.0 {
          Scaled(q, 1.0, rows as real);
        }
      }
    } else {
      assert q <= 1.0 by {
        if q > 1.0 {
          Scaled(1.0, q, rows as real);
        }
      }
    }
  }

  lemma Product(a: nat, b: nat)
    ensures Times(a as real, b as real) == (a * b) as real
  {}

  lemma WholeRows(r: nat, rows: nat, bytes: nat, average: real)
    requires Times(average, rows as real) == bytes as real
    ensures Times(SizeOf(r, average), rows as real) == (r * bytes) as real
  {
    var a, n := average, rows as real;
    assert (r as real * a) * n == r as real * (a * n);
    assert r as real * bytes as real == (r * bytes) as real;
  }
}
