/** Page arithmetic for index files. */
module IxLayout {
  import opened Common
  import opened IxLevels
  import opened IxShape
  import IxGrow
  import Layout

  const PAGE_HEADER_SIZE := 24
  const RID_SIZE := 8
  const MAX_COL_LEN := 2000

  /** The order of an index whose keys take `len` bytes. */
  function IndexOrder(len: nat): int {
    (Layout.PAGE_SIZE - PAGE_HEADER_SIZE) / (len + RID_SIZE) - 1
  }

  /** One entry more than the order fits in an index page, so an overfull page is no overflow; two entries
      more would not fit. */
  lemma IndexFits(len: nat)
    ensures 24 + (IndexOrder(len) + 1) * len + (IndexOrder(len) + 1) * 8 <= 4096
    ensures 24 + (IndexOrder(len) + 2) * len + (IndexOrder(len) + 2) * 8 > 4096
  {
    var d := len + RID_SIZE;
    Layout.QuotientFits(4072, d);
    var q := 4072 / d;
    assert q * d == q * len + q * RID_SIZE;
    assert (q + 1) * d == (q + 1) * len + (q + 1) * RID_SIZE;
  }

  /** `create_index` accepts keys of up to 2000 bytes, but its assertion that the order is at
      least 3 holds exactly for keys of up to 1010 bytes. Where assertions are compiled out, longer keys
      get an index of order 2, or 1 from 1350 bytes on. */
  lemma OrderAtLeastThree(len: nat)
    requires len <= MAX_COL_LEN
    ensures IndexOrder(len) > 2 <==> len <= 1010
    ensures IndexOrder(len) >= 1 && (IndexOrder(len) == 1 <==> len >= 1350)
  {
    QuotientAtLeast(len + RID_SIZE, 4);
    QuotientAtLeast(len + RID_SIZE, 3);
    QuotientAtLeast(len + RID_SIZE, 2);
  }

  lemma QuotientAtLeast(d: nat, m: nat)
    requires d > 0
    ensures 4072 / d >= m <==> m * d <= 4072
  {
    var q := 4072 / d;
    assert 4072 == q * d + 4072 % d;
    if q >= m {
      MulUp(m, q, d);
    } else {
      MulUp(q + 1, m, d);
    }
  }

  /** Both areas of an index page have room for every page an operation can see: one with an allowed
      number of keys, or one with a key too many that is about to be split. */
  lemma NodeFits(n: Node, len: nat, root: bool)
    requires IndexOrder(len) > 2
    requires n.Inner? ==> |n.kids| == |n.keys| + 1
    requires Fill(n, IndexOrder(len), root) || IxGrow.Overfull(n, IndexOrder(len))
    ensures n.Size() * len <= (IndexOrder(len) + 1) * len
    ensures PAGE_HEADER_SIZE + (IndexOrder(len) + 1) * len + n.Rids() * RID_SIZE <= Layout.PAGE_SIZE
  {
    IndexFits(len);
    MulUp(n.Size(), IndexOrder(len) + 1, len);
    MulUp(n.Rids(), IndexOrder(len) + 1, RID_SIZE);
  }
}
