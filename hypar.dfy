/** The hyperbolic-paraboloid (hypar) panel.

    Raw coordinates (xp, yp) are laid out on an (N+1) x (N+1) lattice whose
    point (col, s) has flat index col*(N+1) + s.  The closed-form laws of the
    panel turn them into plan coordinates and a height; the points below the
    diagonal (s < col) are then reflected across the panel's mid-line, every
    point is rotated by -psi, and a plain grid of N^2 quadrilaterals joins
    the lattice.

    The laws use sin, cos, tan, arctan and sqrt of psi = pi/Ne; they are
    parameters here, so the model states what the generator does with them,
    not what they compute. */
module Hypar {
  import opened Mesh

  /** The panel's closed-form laws for fixed H, Re and psi. */
  datatype Laws = Laws(
    height: (real, real) -> real,          // get_z(xp, yp)
    bound: real -> real,                   // get_K(xp): extent of yp at xp
    toPlan: (real, real) -> (real, real),  // get_xy(xp, yp)
    reflect: (real, real) -> (real, real), // sym(x, y)
    rotate: (real, real) -> (real, real))  // rotate(x, y, -psi, 1)

  // ---------------------------------------------------------------------------
  // Lattice
  // ---------------------------------------------------------------------------

  /** Column of node slot `n`. */
  function ColOf(N: nat, n: nat): (col: nat)
    requires n < NodesTot(N)
    ensures col <= N
  {
    Column(N + 1, N + 1, n)
  }

  /** Position of node slot `n` within its column. */
  function PosOf(N: nat, n: nat): (s: nat)
    requires n < NodesTot(N)
    ensures s <= N && Flat(N + 1, ColOf(N, n), s) == n
  {
    n % (N + 1)
  }

  /** Base subscript of lattice point (col, s): the larger of the two. */
  function LatticeSub(col: nat, s: nat): nat
  {
    if s < col then col else s
  }

  /** Sample subscript of lattice point (col, s): the smaller of the two. */
  function SampleSub(col: nat, s: nat): nat
  {
    if s < col then s else col
  }

  /** Raw abscissa of lattice point (col, s). */
  function RawXp(H: real, N: nat, col: nat, s: nat): real
    requires col <= N && s <= N
  {
    XBase(H, N, LatticeSub(col, s))
  }

  /** Raw ordinate of lattice point (col, s): sample SampleSub of the
      LatticeSub + 1 evenly spaced values from 0 to the bound at its abscissa. */
  function RawYp(laws: Laws, H: real, N: nat, col: nat, s: nat): (yp: real)
    requires col <= N && s <= N
    ensures laws.bound(RawXp(H, N, col, s)) >= 0.0 ==> 0.0 <= yp <= laws.bound(RawXp(H, N, col, s))
    ensures laws.bound(RawXp(H, N, col, s)) <= 0.0 ==> laws.bound(RawXp(H, N, col, s)) <= yp <= 0.0
  {
    SampleInRange(col, s);
    Linspace(0.0, laws.bound(RawXp(H, N, col, s)), LatticeSub(col, s) + 1, SampleSub(col, s))
  }

  /** The sample subscript never exceeds the base subscript, so the yp lookup
      is always within its linspace. */
  lemma SampleInRange(col: nat, s: nat)
    ensures SampleSub(col, s) <= LatticeSub(col, s)
    ensures SampleSub(col, s) + LatticeSub(col, s) == col + s
  {
  }

  /** The lattice is symmetric about its diagonal: (col, s) and (s, col)
      carry the same raw coordinates. */
  lemma LatticeSymmetric(laws: Laws, H: real, N: nat, col: nat, s: nat)
    requires col <= N && s <= N
    ensures RawXp(H, N, col, s) == RawXp(H, N, s, col)
    ensures RawYp(laws, H, N, col, s) == RawYp(laws, H, N, s, col)
  {
    assert LatticeSub(col, s) == LatticeSub(s, col) && SampleSub(col, s) == SampleSub(s, col);
  }

  /** The lattice's edges (s == 0 or col == 0) have yp = 0, and its diagonal
      points lie on the bound of their abscissa. */
  lemma RawYpEdges(laws: Laws, H: real, N: nat, col: nat, s: nat)
    requires col <= N && s <= N
    ensures s == 0 || col == 0 ==> RawYp(laws, H, N, col, s) == 0.0
    ensures s == col && col > 0 ==> RawYp(laws, H, N, col, s) == laws.bound(RawXp(H, N, col, s))
  {
    LinspaceEnds(0.0, laws.bound(RawXp(H, N, col, s)), LatticeSub(col, s) + 1);
  }

  /** Raw abscissas run from 0 at lattice point (0, 0) to H on the last
      column and the last row. */
  lemma RawXpRange(H: real, N: nat, col: nat, s: nat)
    requires N >= 1 && col <= N && s <= N
    ensures col == 0 && s == 0 ==> RawXp(H, N, col, s) == 0.0
    ensures col == N || s == N ==> RawXp(H, N, col, s) == H
  {
    XBaseValue(H, N, LatticeSub(col, s));
  }

  /** Slots 0 .. n-1 hold the raw abscissa and base subscript of their lattice point. */
  ghost predicate LatticeFilled(H: real, N: nat, xp: array<real>, index: array<nat>, n: nat)
    reads xp, index
  {
    xp.Length == NodesTot(N) && index.Length == NodesTot(N) && n <= NodesTot(N) &&
    forall k :: 0 <= k < n ==>
      xp[k] == RawXp(H, N, ColOf(N, k), PosOf(N, k)) && index[k] == LatticeSub(ColOf(N, k), PosOf(N, k))
  }

  /** The lattice loop: for each column, spread subscript col over entries
      0..col of xp_base_i and xp_index_i, then copy both into the next N+1
      slots. */
  method BuildLattice(H: real, N: nat) returns (xp: array<real>, index: array<nat>)
    ensures xp.Length == NodesTot(N) && index.Length == NodesTot(N)
    ensures forall n :: 0 <= n < NodesTot(N) ==>
      xp[n] == RawXp(H, N, ColOf(N, n), PosOf(N, n)) && index[n] == LatticeSub(ColOf(N, n), PosOf(N, n))
  {
    var xpBase := BaseAbscissas(H, N);
    var xpIndex := new nat[N + 1](k => k);
    xp := new real[NodesTot(N)];
    index := new nat[NodesTot(N)];
    var n := 0;
    for col := 0 to N + 1
      invariant n == Flat(N + 1, col, 0)
      invariant forall t :: 0 <= t <= N ==>
        xpIndex[t] == Before(col, t) && xpBase[t] == XBase(H, N, Before(col, t))
      invariant LatticeFilled(H, N, xp, index, n)
    {
      SpreadColumn(H, N, col, xpBase, xpIndex);
      n := CopyColumn(H, N, col, xpBase, xpIndex, xp, index, n);
    }
  }

  /** Subscript held by entry t of xp_index_i before column col of the
      lattice loop. */
  function Before(col: nat, t: nat): nat
  {
    if t < col then col - 1 else t
  }

  /** Entries 0..col take the base abscissa at xp_index_i[col],
      which is still col, and the subscript col; afterwards entry t holds
      subscript max(t, col). */
  method SpreadColumn(H: real, N: nat, col: nat, xpBase: array<real>, xpIndex: array<nat>)
    requires col <= N && xpBase.Length == N + 1 && xpIndex.Length == N + 1
    requires forall t :: 0 <= t <= N ==>
      xpIndex[t] == Before(col, t) && xpBase[t] == XBase(H, N, Before(col, t))
    modifies xpBase, xpIndex
    ensures forall t :: 0 <= t <= N ==>
      xpIndex[t] == LatticeSub(col, t) && xpBase[t] == XBase(H, N, LatticeSub(col, t))
  {
    for i := 0 to col + 1
      invariant forall t :: 0 <= t < i ==> xpIndex[t] == col && xpBase[t] == XBase(H, N, col)
      invariant forall t :: i <= t <= N ==>
        xpIndex[t] == Before(col, t) && xpBase[t] == XBase(H, N, Before(col, t))
    {
      xpBase[i] := xpBase[xpIndex[col]];
      xpIndex[i] := col;
    }
  }

  /** Slots col*(N+1) + s, s = 0..N, take entry s of both arrays. */
  method CopyColumn(H: real, N: nat, col: nat, xpBase: array<real>, xpIndex: array<nat>,
                    xp: array<real>, index: array<nat>, n0: nat) returns (n: nat)
    requires col <= N && xpBase.Length == N + 1 && xpIndex.Length == N + 1
    requires xp != xpBase && index != xpIndex
    requires forall t :: 0 <= t <= N ==>
      xpIndex[t] == LatticeSub(col, t) && xpBase[t] == XBase(H, N, LatticeSub(col, t))
    requires n0 == Flat(N + 1, col, 0) && LatticeFilled(H, N, xp, index, n0)
    modifies xp, index
    ensures n == Flat(N + 1, col + 1, 0) && LatticeFilled(H, N, xp, index, n)
  {
    n := n0;
    for s := 0 to N + 1
      invariant n == Flat(N + 1, col, s) && LatticeFilled(H, N, xp, index, n)
    {
      FlatInRange(N + 1, N + 1, col, s);
      FlatDecode(N + 1, col, s);
      xp[n] := xpBase[s];
      index[n] := xpIndex[s];
      n := n + 1;
    }
  }

  /** The yp loop: sample min(s, col) of the index_i[n] + 1 values from 0 to
      the bound at xp_i[n]. */
  method SampleYp(laws: Laws, N: nat, xp: array<real>, index: array<nat>) returns (yp: array<real>)
    requires xp.Length == NodesTot(N) && index.Length == NodesTot(N)
    requires forall n :: 0 <= n < NodesTot(N) ==> SampleSub(ColOf(N, n), PosOf(N, n)) <= index[n]
    ensures yp.Length == NodesTot(N)
    ensures forall n :: 0 <= n < NodesTot(N) ==>
      yp[n] == Linspace(0.0, laws.bound(xp[n]), index[n] + 1, SampleSub(ColOf(N, n), PosOf(N, n)))
  {
    yp := new real[NodesTot(N)];
    var n := 0;
    for col := 0 to N + 1
      invariant n == Flat(N + 1, col, 0) && SamplesFilled(laws, N, xp, index, yp, n)
    {
      n := SampleColumn(laws, N, col, xp, index, yp, n);
    }
  }

  /** Slots 0 .. n-1 of yp hold their sample. */
  ghost predicate SamplesFilled(laws: Laws, N: nat, xp: array<real>, index: array<nat>, yp: array<real>, n: nat)
    reads xp, index, yp
  {
    xp.Length == NodesTot(N) && index.Length == NodesTot(N) && yp.Length == NodesTot(N) && n <= NodesTot(N) &&
    forall k :: 0 <= k < n ==>
      SampleSub(ColOf(N, k), PosOf(N, k)) <= index[k] &&
      yp[k] == Linspace(0.0, laws.bound(xp[k]), index[k] + 1, SampleSub(ColOf(N, k), PosOf(N, k)))
  }

  /** One column of yp samples. */
  method SampleColumn(laws: Laws, N: nat, col: nat, xp: array<real>, index: array<nat>, yp: array<real>, n0: nat)
    returns (n: nat)
    requires col <= N && yp != xp
    requires index.Length == NodesTot(N)
    requires forall k :: 0 <= k < NodesTot(N) ==> SampleSub(ColOf(N, k), PosOf(N, k)) <= index[k]
    requires n0 == Flat(N + 1, col, 0) && SamplesFilled(laws, N, xp, index, yp, n0)
    modifies yp
    ensures n == Flat(N + 1, col + 1, 0) && SamplesFilled(laws, N, xp, index, yp, n)
  {
    n := n0;
    for i := 0 to N + 1
      invariant n == Flat(N + 1, col, i) && SamplesFilled(laws, N, xp, index, yp, n)
    {
      FlatInRange(N + 1, N + 1, col, i);
      FlatDecode(N + 1, col, i);
      var sub := SampleSub(col, i);
      yp[n] := Linspace(0.0, laws.bound(xp[n]), index[n] + 1, sub);
      n := n + 1;
    }
  }

  // ---------------------------------------------------------------------------
  // Nodes
  // ---------------------------------------------------------------------------

  /** Plan coordinates of lattice point (col, s) before the fold. */
  function PlanXY(laws: Laws, H: real, N: nat, col: nat, s: nat): (real, real)
    requires col <= N && s <= N
  {
    laws.toPlan(RawXp(H, N, col, s), RawYp(laws, H, N, col, s))
  }

  /** Height of lattice point (col, s); neither the fold nor the rotation
      changes it. */
  function NodeZ(laws: Laws, H: real, N: nat, col: nat, s: nat): real
    requires col <= N && s <= N
  {
    laws.height(RawXp(H, N, col, s), RawYp(laws, H, N, col, s))
  }

  /** Plan coordinates after the fold: points below the diagonal are reflected. */
  function FoldedXY(laws: Laws, H: real, N: nat, col: nat, s: nat): (q: (real, real))
    requires col <= N && s <= N
    ensures col <= s ==> q == PlanXY(laws, H, N, col, s)
    ensures s < col ==> q == laws.reflect(PlanXY(laws, H, N, s, col).0, PlanXY(laws, H, N, s, col).1)
  {
    LatticeSymmetric(laws, H, N, col, s);
    var p := PlanXY(laws, H, N, col, s);
    if s < col then laws.reflect(p.0, p.1) else p
  }

  /** Plan coordinates after the final rotation. */
  function FinalXY(laws: Laws, H: real, N: nat, col: nat, s: nat): (real, real)
    requires col <= N && s <= N
  {
    var p := FoldedXY(laws, H, N, col, s);
    laws.rotate(p.0, p.1)
  }

  /** The fold makes the panel's two halves mirror images: each point below
      the diagonal ends up at the reflection of its partner above it, which
      the fold leaves in place, and both are at the same height. */
  lemma FoldMirrorsPartner(laws: Laws, H: real, N: nat, col: nat, s: nat)
    requires col <= N && s < col
    ensures FoldedXY(laws, H, N, s, col) == PlanXY(laws, H, N, s, col)
    ensures FoldedXY(laws, H, N, col, s) == laws.reflect(FoldedXY(laws, H, N, s, col).0, FoldedXY(laws, H, N, s, col).1)
    ensures NodeZ(laws, H, N, col, s) == NodeZ(laws, H, N, s, col)
  {
    LatticeSymmetric(laws, H, N, col, s);
  }

  /** The plan coordinates and height of every lattice point, as a
      3 x nodes_tot array. */
  method Project(laws: Laws, xp: array<real>, yp: array<real>) returns (nodes: array2<real>)
    requires xp.Length == yp.Length
    ensures nodes.Length0 == 3 && nodes.Length1 == xp.Length
    ensures forall n :: 0 <= n < xp.Length ==>
      nodes[0, n] == laws.toPlan(xp[n], yp[n]).0 && nodes[1, n] == laws.toPlan(xp[n], yp[n]).1 &&
      nodes[2, n] == laws.height(xp[n], yp[n])
  {
    nodes := new real[3, xp.Length]((r, n) reads xp, yp =>
      if 0 <= n < xp.Length && n < yp.Length then
        if r == 0 then laws.toPlan(xp[n], yp[n]).0
        else if r == 1 then laws.toPlan(xp[n], yp[n]).1
        else laws.height(xp[n], yp[n])
      else 0.0);
  }

  /** The fold loop: a copy of the projected nodes in which every point with
      i < col, at flat index i + (N+1)*col, has (x, y) replaced by sym(x, y). */
  method Fold(laws: Laws, N: nat, nodes: array2<real>) returns (folded: array2<real>)
    requires nodes.Length0 == 3 && nodes.Length1 == NodesTot(N)
    ensures folded.Length0 == 3 && folded.Length1 == NodesTot(N)
    ensures forall n :: 0 <= n < NodesTot(N) ==>
      folded[2, n] == nodes[2, n] &&
      (folded[0, n], folded[1, n]) ==
        (if PosOf(N, n) < ColOf(N, n) then laws.reflect(nodes[0, n], nodes[1, n]) else (nodes[0, n], nodes[1, n]))
  {
    folded := new real[3, NodesTot(N)]((r, n) reads nodes =>
      if 0 <= r < 3 && 0 <= n < NodesTot(N) then nodes[r, n] else 0.0);
    for col := 0 to N + 1
      invariant FoldedBefore(laws, N, nodes, folded, col, 0)
    {
      FoldColumn(laws, N, nodes, folded, col);
    }
  }

  /** Whether node slot `n` comes before point (col, i) in the fold loop. */
  function Visited(N: nat, n: nat, col: nat, i: nat): bool
    requires n < NodesTot(N)
  {
    ColOf(N, n) < col || (ColOf(N, n) == col && PosOf(N, n) < i)
  }

  /** The fold has reflected exactly the points below the diagonal that come
      before (col, i), and changed nothing else. */
  ghost predicate FoldedBefore(laws: Laws, N: nat, nodes: array2<real>, folded: array2<real>, col: nat, i: nat)
    reads nodes, folded
  {
    nodes.Length0 == 3 && nodes.Length1 == NodesTot(N) &&
    folded.Length0 == 3 && folded.Length1 == NodesTot(N) &&
    forall n :: 0 <= n < NodesTot(N) ==>
      folded[2, n] == nodes[2, n] &&
      (folded[0, n], folded[1, n]) ==
        (if Visited(N, n, col, i) && PosOf(N, n) < ColOf(N, n) then laws.reflect(nodes[0, n], nodes[1, n])
         else (nodes[0, n], nodes[1, n]))
  }

  /** One column of the fold. */
  method FoldColumn(laws: Laws, N: nat, nodes: array2<real>, folded: array2<real>, col: nat)
    requires col <= N && folded != nodes && FoldedBefore(laws, N, nodes, folded, col, 0)
    modifies folded
    ensures FoldedBefore(laws, N, nodes, folded, col + 1, 0)
  {
    for i := 0 to N + 1
      invariant FoldedBefore(laws, N, nodes, folded, col, i)
    {
      if i < col {
        var index := i + (N + 1) * col;
        FlatInRange(N + 1, N + 1, col, i);
        FlatDecode(N + 1, col, i);
        var xyr := laws.reflect(nodes[0, index], nodes[1, index]);
        folded[0, index] := xyr.0;
        folded[1, index] := xyr.1;
      }
    }
  }

  /** The rotation loop: (x, y) turned by -psi, z copied. */
  method Rotate(laws: Laws, nodes: array2<real>) returns (rotated: array2<real>)
    requires nodes.Length0 == 3
    ensures rotated.Length0 == 3 && rotated.Length1 == nodes.Length1
    ensures forall n :: 0 <= n < nodes.Length1 ==>
      (rotated[0, n], rotated[1, n]) == laws.rotate(nodes[0, n], nodes[1, n]) && rotated[2, n] == nodes[2, n]
  {
    rotated := new real[3, nodes.Length1];
    for i := 0 to nodes.Length1
      invariant forall n :: 0 <= n < i ==>
        (rotated[0, n], rotated[1, n]) == laws.rotate(nodes[0, n], nodes[1, n]) && rotated[2, n] == nodes[2, n]
    {
      var xy := laws.rotate(nodes[0, i], nodes[1, i]);
      rotated[0, i] := xy.0;
      rotated[1, i] := xy.1;
      rotated[2, i] := nodes[2, i];
    }
  }

  /** The node table loop: row n is (n + 1, x, y, z) of column n of `coords`. */
  method NodeRows(coords: array2<real>) returns (table: array2<real>)
    requires coords.Length0 == 3
    ensures table.Length0 == coords.Length1 && table.Length1 == 4
    ensures forall n :: 0 <= n < coords.Length1 ==>
      table[n, 0] == (n + 1) as real &&
      table[n, 1] == coords[0, n] && table[n, 2] == coords[1, n] && table[n, 3] == coords[2, n]
  {
    table := new real[coords.Length1, 4];
    for n := 0 to coords.Length1
      invariant forall k :: 0 <= k < n ==>
        table[k, 0] == (k + 1) as real &&
        table[k, 1] == coords[0, k] && table[k, 2] == coords[1, k] && table[k, 3] == coords[2, k]
    {
      table[n, 0] := (n + 1) as real;
      table[n, 1] := coords[0, n];
      table[n, 2] := coords[1, n];
      table[n, 3] := coords[2, n];
    }
  }

  // ---------------------------------------------------------------------------
  // Elements
  // ---------------------------------------------------------------------------

  /** One-based id of the node at lattice point (col, s). */
  function NodeId(N: nat, col: nat, s: nat): nat
  {
    Flat(N + 1, col, s) + 1
  }

  /** Row of the quad grid for cell (col, row), as the element loop computes it:
      [id, base, base + N + 1, base + N + 2, base + 1] with
      base = col + 1 + N*col + row. */
  function QuadRow(N: nat, col: nat, row: nat): (q: seq<int>)
    ensures |q| == 5
  {
    var base := col + 1 + N * col + row;
    [Flat(N, col, row) + 1, base, base + N + 1, base + N + 2, base + 1]
  }

  /** The element table: N^2 rows, row r for cell (r / N, r % N). */
  function QuadTable(N: nat): (t: seq<seq<int>>)
    ensures |t| == N * N
  {
    seq(N * N, r requires 0 <= r < N * N => QuadRow(N, Column(N, N, r), r % N))
  }

  /** The quad of cell (col, row) joins the four lattice points around it:
      (col, row), (col+1, row), (col+1, row+1), (col, row+1), and carries id
      col*N + row + 1. */
  lemma QuadCorners(N: nat, col: nat, row: nat)
    ensures QuadRow(N, col, row) ==
      [Flat(N, col, row) + 1, NodeId(N, col, row), NodeId(N, col + 1, row),
       NodeId(N, col + 1, row + 1), NodeId(N, col, row + 1)]
  {
    assert Flat(N + 1, col + 1, row) == Flat(N + 1, col, row) + N + 1;
  }

  /** Every quad has four distinct node ids in [1, (N+1)^2]. */
  lemma QuadWellFormed(N: nat, col: nat, row: nat)
    requires col < N && row < N
    ensures var q := QuadRow(N, col, row);
      (forall k :: 1 <= k < 5 ==> 1 <= q[k] <= NodesTot(N)) &&
      (forall j, k :: 1 <= j < k < 5 ==> q[j] != q[k])
  {
    QuadCorners(N, col, row);
    FlatInRange(N + 1, N + 1, col + 1, row + 1);
  }

  /** Row r of the table is the quad of cell (r / N, r % N) and carries id r + 1,
      so the ids are 1..N^2 in order. */
  lemma QuadTableRows(N: nat, col: nat, row: nat)
    requires col < N && row < N
    ensures Flat(N, col, row) < N * N
    ensures QuadTable(N)[Flat(N, col, row)] == QuadRow(N, col, row)
    ensures QuadTable(N)[Flat(N, col, row)][0] == Flat(N, col, row) + 1
  {
    FlatInRange(N, N, col, row);
    FlatDecode(N, col, row);
  }

  /** The last quad reaches the last node, (N+1)^2. */
  lemma QuadMaxId(N: nat)
    requires N >= 1
    ensures QuadRow(N, N - 1, N - 1)[3] == NodesTot(N)
  {
  }

  /** With N = 1 the grid is the single quad [1, 1, 3, 4, 2]. */
  lemma SingleQuad()
    ensures QuadTable(1) == [[1, 1, 3, 4, 2]]
  {
    assert QuadTable(1)[0] == QuadRow(1, 0, 0);
  }

  /** The element loop: cell (col, row) written to row n = col*N + row. */
  method BuildQuads(N: nat) returns (elems: array2<int>)
    ensures elems.Length0 == N * N && elems.Length1 == 5
    ensures forall r, k :: 0 <= r < N * N && 0 <= k < 5 ==> elems[r, k] == QuadTable(N)[r][k]
  {
    elems := new int[N * N, 5];
    ghost var table := QuadTable(N);
    var n := 0;
    for col := 0 to N
      invariant n == Flat(N, col, 0) && n <= elems.Length0
      invariant forall r, k :: 0 <= r < n && 0 <= k < 5 ==> elems[r, k] == table[r][k]
    {
      for row := 0 to N
        invariant n == Flat(N, col, row) && n <= elems.Length0
        invariant forall r, k :: 0 <= r < n && 0 <= k < 5 ==> elems[r, k] == table[r][k]
      {
        QuadTableRows(N, col, row);
        WriteQuad(N, elems, col, row, n);
        n := n + 1;
      }
      FlatNext(N, col);
    }
  }

  /** Row n of the table gets [n + 1, base, base + N + 1, base + N + 2, base + 1]. */
  method WriteQuad(N: nat, elems: array2<int>, col: nat, row: nat, n: nat)
    requires n == Flat(N, col, row) && n < elems.Length0 && elems.Length1 == 5
    modifies elems
    ensures forall k :: 0 <= k < 5 ==> elems[n, k] == QuadRow(N, col, row)[k]
    ensures forall r, k :: 0 <= r < elems.Length0 && r != n && 0 <= k < 5 ==> elems[r, k] == old(elems[r, k])
  {
    var base := col + 1 + N * col + row;
    elems[n, 0] := n + 1;
    elems[n, 1] := base;
    elems[n, 2] := base + N + 1;
    elems[n, 3] := base + N + 2;
    elems[n, 4] := base + 1;
  }

  // ---------------------------------------------------------------------------
  // The generator
  // ---------------------------------------------------------------------------

  /** The whole generator: node table rows (id, x, y, z) and the quad grid. */
  method Generate(laws: Laws, H: real, N: nat) returns (nodes: array2<real>, elems: array2<int>)
    ensures nodes.Length0 == NodesTot(N) && nodes.Length1 == 4
    ensures forall n :: 0 <= n < NodesTot(N) ==>
      nodes[n, 0] == (n + 1) as real &&
      (nodes[n, 1], nodes[n, 2]) == FinalXY(laws, H, N, ColOf(N, n), PosOf(N, n)) &&
      nodes[n, 3] == NodeZ(laws, H, N, ColOf(N, n), PosOf(N, n))
    ensures elems.Length0 == N * N && elems.Length1 == 5
    ensures forall r, k :: 0 <= r < N * N && 0 <= k < 5 ==> elems[r, k] == QuadTable(N)[r][k]
  {
    var xp, index := BuildLattice(H, N);
    var yp := SampleYp(laws, N, xp, index);
    var projected := Project(laws, xp, yp);
    var folded := Fold(laws, N, projected);
    var rotated := Rotate(laws, folded);
    nodes := NodeRows(rotated);
    elems := BuildQuads(N);
  }
}
