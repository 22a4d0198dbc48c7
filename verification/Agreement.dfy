/** Tables and the unique indexes over them. */
module Agreement {
  import opened Common

  type Index = map<nat, Rid>

  /** The index files every row of the table under its key, and nothing else. */
  ghost predicate Agrees<R>(m: Index, rows: map<Rid, R>, key: R -> nat) {
    && (forall r :: r in rows ==> key(rows[r]) in m && m[key(rows[r])] == r)
    && (forall k :: k in m ==> m[k] in rows && key(rows[m[k]]) == k)
  }

  /** No two rows have one key. */
  ghost predicate Unique<R>(rows: map<Rid, R>, key: R -> nat) {
    forall a, b :: a in rows && b in rows && a != b ==> key(rows[a]) != key(rows[b])
  }

  /** An index that agrees with a table is determined by it. */
  lemma AgreesOnce<R>(m: Index, m': Index, rows: map<Rid, R>, key: R -> nat)
    requires Agrees(m, rows, key) && Agrees(m', rows, key)
    ensures m == m'
  {
    forall k
      ensures k in m <==> k in m'
      ensures k in m ==> m[k] == m'[k]
    {
    }
  }

  lemma AgreesUnique<R>(m: Index, rows: map<Rid, R>, key: R -> nat)
    requires Agrees(m, rows, key)
    ensures Unique(rows, key)
  {
  }

  /** Taking a row and its key out. */
  lemma AgreesWithout<R>(m: Index, rows: map<Rid, R>, key: R -> nat, r: Rid)
    requires Agrees(m, rows, key) && r in rows
    ensures Agrees(m - {key(rows[r])}, rows - {r}, key)
  {
    AgreesUnique(m, rows, key);
  }

  /** Putting a row and its key in. */
  lemma AgreesWith<R>(m: Index, rows: map<Rid, R>, key: R -> nat, r: Rid, row: R)
    requires Agrees(m, rows, key) && r !in rows && key(row) !in m
    ensures Agrees(m[key(row) := r], rows[r := row], key)
  {
  }

  /** The key is free exactly when the row does not clash with another one. */
  lemma KeyFree<R>(m: Index, rows: map<Rid, R>, key: R -> nat, r: Rid, row: R)
    requires Agrees(m, rows, key) && r !in rows
    ensures key(row) !in m <==> Unique(rows[r := row], key)
  {
    AgreesUnique(m, rows, key);
    if key(row) in m {
      var q := m[key(row)];
      assert q in rows[r := row] && r in rows[r := row] && q != r;
      assert key(rows[r := row][q]) == key(rows[r := row][r]);
    }
  }

  // ---- a small table for examples

  function FirstColumn(row: seq<int>): nat {
    if row != [] && row[0] >= 0 then row[0] else 0
  }

  const LOWER := Rid(1, 0)
  const UPPER := Rid(1, 1)
}
