/** What several parts of the system share. */
module Common {
  const NO_PAGE: int := -1

  /** The place of a record in a table file. */
  datatype Rid = Rid(pageNo: int, slotNo: int)

  datatype CompOp = EQ | NE | LT | GT | LE | GE

  predicate Compare(op: CompOp, a: int, b: int) {
    match op
    case EQ => a == b
    case NE => a != b
    case LT => a < b
    case GT => a > b
    case LE => a <= b
    case GE => a >= b
  }

  ghost predicate NoDup(s: seq<int>) {
    forall i, j :: 0 <= i < j < |s| ==> s[i] != s[j]
  }

  /** How many values `n` bytes can take. */
  function Pow256(n: nat): (p: nat)
    ensures p > 0
  {
    if n == 0 then 1 else 256 * Pow256(n - 1)
  }

  lemma MulUp(x: int, y: int, d: int)
    requires x <= y && d >= 0
    ensures x * d <= y * d && d * x <= d * y
  {
  }
}
