/** Page arithmetic for heap files. */
module Layout {
  const PAGE_SIZE := 4096
  const MAX_RECORD_SIZE := 2048
  const FILE_HEADER_SIZE := 20

  function RecordsPerPage(recordSize: nat): nat
    requires 1 <= recordSize
  {
    (8 * (PAGE_SIZE - 1 - FILE_HEADER_SIZE) + 1) / (1 + recordSize * 8)
  }

  function BitmapSize(n: nat): nat {
    (n + 8 - 1) / 8
  }

  /** For every allowed record size a page holds at least one record, and the header of 16
      bytes, bitmap and slots fit in it. In bits, one record and its place in the bitmap more would go beyond what the
      formula sets aside: the page without the file header and a byte for rounding. */
  lemma RecordsFit(recordSize: nat)
    requires 1 <= recordSize <= 2048
    ensures RecordsPerPage(recordSize) >= 1
    ensures RecordsPerPage(recordSize) <= BitmapSize(RecordsPerPage(recordSize)) * 8
    ensures 16 + BitmapSize(RecordsPerPage(recordSize))
            + RecordsPerPage(recordSize) * recordSize <= 4096
    ensures (RecordsPerPage(recordSize) + 1) * (8 * recordSize + 1) > 8 * (4096 - 20 - 1) + 1
  {
    var n, d := RecordsPerPage(recordSize), 1 + recordSize * 8;
    QuotientFits(32601, d);
    assert n * d == n + 8 * (n * recordSize);
  }

  lemma QuotientFits(x: nat, d: nat)
    requires d > 0
    ensures (x / d) * d <= x < (x / d + 1) * d
    ensures d <= x ==> x / d >= 1
  {
    assert x == (x / d) * d + x % d;
    if d <= x {
      OneFits(x, d);
    }
  }

  lemma OneFits(x: nat, d: nat)
    requires 0 < d <= x
    ensures x / d >= 1
  {
    assert x == (x / d) * d + x % d;
    if x / d == 0 {
      assert false;
    }
  }
}
