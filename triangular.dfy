/** Enumeration of a triangle of lattice positions, row by row.

    Row `c` of a triangle of width `m` holds `m - c` positions, so rows
    0 .. m - 1 hold m, m - 1, ..., 1 positions.  Both node passes and both
    element passes of the rhombus builder walk such a triangle with a running
    counter; the counter's value at (c, i) is `Rank(m, c, i)`.
 */
module Triangular {

  /** Number of positions in the rows before row `col`. */
  function RowStart(m: nat, col: nat): nat
    requires col <= m + 1
    decreases col
  {
    if col == 0 then 0 else RowStart(m, col - 1) + (m - (col - 1))
  }

  /** Whether (c, i) is a position of the triangle of width `m`. */
  predicate InTriangle(m: nat, c: nat, i: nat)
  {
    c < m && i < m - c
  }

  /** The running counter's value when the walk reaches position (c, i). */
  function Rank(m: nat, c: nat, i: nat): nat
    requires c <= m
  {
    RowStart(m, c) + i
  }

  /** Closed form: the first `col` rows hold col*m - col*(col-1)/2 positions. */
  lemma {:induction false} RowStartClosedForm(m: nat, col: nat)
    requires col <= m + 1
    ensures 2 * RowStart(m, col) == col * (2 * m + 1 - col)
    decreases col
  {
    if col > 0 {
      RowStartClosedForm(m, col - 1);
      calc {
        2 * RowStart(m, col);
        2 * RowStart(m, col - 1) + 2 * (m - (col - 1));
        (col - 1) * (2 * m + 2 - col) + 2 * (m - col + 1);
        col * (2 * m + 1 - col);
      }
    }
  }

  /** A triangle one wider has, before row `col`, exactly `col` more positions. */
  lemma {:induction false} RowStartWiden(m: nat, col: nat)
    requires col <= m + 1
    ensures RowStart(m + 1, col) == RowStart(m, col) + col
    decreases col
  {
    if col > 0 {
      RowStartWiden(m, col - 1);
    }
  }

  /** Every row before row `c2` starts after the whole of row `c1 < c2`. */
  lemma {:induction false} RowStartGap(m: nat, c1: nat, c2: nat)
    requires c1 < c2 <= m + 1
    ensures RowStart(m, c1) + (m - c1) <= RowStart(m, c2)
    decreases c2
  {
    if c1 + 1 < c2 {
      RowStartGap(m, c1, c2 - 1);
    }
  }

  /** The whole triangle of width `m` holds m*(m+1)/2 positions. */
  lemma TriangleSize(m: nat)
    ensures 2 * RowStart(m, m) == m * (m + 1)
    ensures RowStart(m, m + 1) == RowStart(m, m)
  {
    RowStartClosedForm(m, m);
  }

  /** The ranks of the positions of a triangle are exactly 0 .. RowStart(m, m) - 1:
      they lie in that range, and no two positions share one. */
  lemma RankInjective(m: nat, c1: nat, i1: nat, c2: nat, i2: nat)
    requires InTriangle(m, c1, i1) && InTriangle(m, c2, i2)
    requires Rank(m, c1, i1) == Rank(m, c2, i2)
    ensures c1 == c2 && i1 == i2
  {
    if c1 < c2 {
      RowStartGap(m, c1, c2);
    } else if c2 < c1 {
      RowStartGap(m, c2, c1);
    }
  }

  lemma RankBound(m: nat, c: nat, i: nat)
    requires InTriangle(m, c, i)
    ensures Rank(m, c, i) < RowStart(m, m)
  {
    RowStartGap(m, c, m);
  }

  /** Inverse of `Rank`: the position the walk is at when its counter,
      started at row `col`, has advanced `k` more steps. */
  function UnrankFrom(m: nat, col: nat, k: nat): (p: (nat, nat))
    requires col <= m
    requires RowStart(m, col) + k < RowStart(m, m)
    ensures col <= p.0 && InTriangle(m, p.0, p.1)
    ensures Rank(m, p.0, p.1) == RowStart(m, col) + k
    decreases m - col
  {
    if k < m - col then (col, k)
    else UnrankFrom(m, col + 1, k - (m - col))
  }

  /** The position of the triangle whose rank is `k`. */
  function Unrank(m: nat, k: nat): (p: (nat, nat))
    requires k < RowStart(m, m)
    ensures InTriangle(m, p.0, p.1) && Rank(m, p.0, p.1) == k
  {
    UnrankFrom(m, 0, k)
  }

  /** Unranking the rank of a position gives that position back. */
  lemma UnrankRank(m: nat, c: nat, i: nat)
    requires InTriangle(m, c, i)
    ensures Rank(m, c, i) < RowStart(m, m)
    ensures Unrank(m, Rank(m, c, i)) == (c, i)
  {
    RankBound(m, c, i);
    var p := Unrank(m, Rank(m, c, i));
    RankInjective(m, p.0, p.1, c, i);
  }
}
