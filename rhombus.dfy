/** The "rhombus" mesh shared by the conical (pyramid) and parabolic (dome)
    panels: two node passes lay out an upper and a lower triangular fold of
    nodes over N+1 base abscissas, and two element passes connect them into
    triangles (at the inner end of each row) and quadrilaterals.

    The pyramid and dome generators carry identical copies of this index
    arithmetic and differ only in their height law, so it is modelled once here.
 */
module Rhombus {
  import opened Mesh
  import opened Triangular

  // ---------------------------------------------------------------------------
  // Node layout
  // ---------------------------------------------------------------------------

  /** A node of the rhombus: position `i` of column `col` of the upper fold
      (first node pass) or of the lower fold (second node pass). */
  datatype Site = Upper(col: nat, i: nat) | Lower(col: nat, i: nat)

  /** The upper fold has columns 0..N of N+1-col nodes; the lower fold has
      columns 0..N-1 of N-col nodes. */
  predicate ValidSite(N: nat, s: Site)
  {
    match s
    case Upper(col, i) => InTriangle(N + 1, col, i)
    case Lower(col, i) => InTriangle(N, col, i)
  }

  /** Number of nodes laid out by the first pass: (N+1)(N+2)/2. */
  function PassASize(N: nat): nat
  {
    RowStart(N + 1, N + 1)
  }

  /** Zero-based slot that the running counter `n` gives to a site. */
  function Slot(N: nat, s: Site): (n: nat)
    requires ValidSite(N, s)
    ensures s.Upper? <==> n < PassASize(N)
  {
    match s
    case Upper(col, i) => RankBound(N + 1, col, i); Rank(N + 1, col, i)
    case Lower(col, i) => PassASize(N) + Rank(N, col, i)
  }

  /** The first pass lays out (N+1)(N+2)/2 nodes and the second N(N+1)/2, so
      together they fill exactly the (N+1)^2 node slots. */
  lemma PassSizes(N: nat)
    ensures 2 * PassASize(N) == (N + 1) * (N + 2)
    ensures 2 * RowStart(N, N) == N * (N + 1)
    ensures PassASize(N) == RowStart(N, N) + N + 1
    ensures PassASize(N) + RowStart(N, N) == NodesTot(N)
  {
    TriangleSize(N + 1);
    TriangleSize(N);
    RowStartWiden(N, N + 1);
  }

  /** The site whose slot is `n`: the inverse of `Slot`. */
  function SiteAt(N: nat, n: nat): (s: Site)
    requires n < NodesTot(N)
    ensures ValidSite(N, s) && Slot(N, s) == n
    ensures s.Upper? <==> n < PassASize(N)
  {
    PassSizes(N);
    if n < PassASize(N) then
      var p := Unrank(N + 1, n); Upper(p.0, p.1)
    else
      var p := Unrank(N, n - PassASize(N)); Lower(p.0, p.1)
  }

  /** Every site gets its own slot in [0, (N+1)^2): the slots of the two passes
      are a bijection onto the node table, so each slot is written exactly once. */
  lemma SlotBijective(N: nat, s: Site)
    requires ValidSite(N, s)
    ensures Slot(N, s) < NodesTot(N)
    ensures s.Upper? <==> Slot(N, s) < PassASize(N)
    ensures SiteAt(N, Slot(N, s)) == s
  {
    PassSizes(N);
    match s
    case Upper(col, i) =>
      UnrankRank(N + 1, col, i);
    case Lower(col, i) =>
      UnrankRank(N, col, i);
  }

  /** Subscript of `x_base_i` that gives a site its abscissa. */
  function XSub(N: nat, s: Site): (k: nat)
    requires ValidSite(N, s)
    ensures k <= N
  {
    match s
    case Upper(col, i) => i + col
    case Lower(col, i) => i + 1 + col
  }

  /** Subscript of `x_base_i` that gives a site its lateral offset. */
  function YSub(N: nat, s: Site): (k: nat)
    requires ValidSite(N, s)
    ensures k <= N
  {
    match s
    case Upper(col, _) => col
    case Lower(col, _) => col + 1
  }

  /** Lateral coordinate from the base abscissa at `YSub`: positive on the
      upper fold, negative on the lower fold. */
  function Lateral(s: Site, base: real, tanPsi: real): real
  {
    if s.Upper? then base * tanPsi else -base * tanPsi
  }

  /** Abscissa of node slot `n`. */
  function NodeX(H: real, N: nat, n: nat): (x: real)
    requires n < NodesTot(N)
    ensures H >= 0.0 ==> 0.0 <= x <= H
  {
    XBase(H, N, XSub(N, SiteAt(N, n)))
  }

  /** Lateral coordinate of node slot `n`. */
  function NodeY(H: real, tanPsi: real, N: nat, n: nat): (y: real)
    requires n < NodesTot(N)
    ensures H >= 0.0 && tanPsi >= 0.0 && SiteAt(N, n).Upper? ==> y >= 0.0
    ensures H >= 0.0 && tanPsi >= 0.0 && SiteAt(N, n).Lower? ==> y <= 0.0
  {
    var s := SiteAt(N, n);
    Lateral(s, XBase(H, N, YSub(N, s)), tanPsi)
  }

  /** Node 1 (slot 0) is the apex at the origin of the xy-plane. */
  lemma ApexNode(H: real, tanPsi: real, N: nat)
    requires N >= 1
    ensures SiteAt(N, 0) == Upper(0, 0)
    ensures NodeX(H, N, 0) == 0.0 && NodeY(H, tanPsi, N, 0) == 0.0
  {
    SlotBijective(N, Upper(0, 0));
    XBaseValue(H, N, 0);
  }

  /** Node N+1 (slot N), the end of the first column, is on the rim at (H, 0). */
  lemma RimAxisNode(H: real, tanPsi: real, N: nat)
    requires N >= 1
    ensures SiteAt(N, N) == Upper(0, N)
    ensures NodeX(H, N, N) == H && NodeY(H, tanPsi, N, N) == 0.0
  {
    SlotBijective(N, Upper(0, N));
    XBaseValue(H, N, N);
    XBaseValue(H, N, 0);
  }

  /** The lower fold mirrors the upper one: node (col, i) of the second pass
      has the abscissa of node (col+1, i) of the first pass and the opposite
      lateral coordinate. */
  lemma Mirror(H: real, tanPsi: real, N: nat, col: nat, i: nat)
    requires ValidSite(N, Lower(col, i))
    ensures ValidSite(N, Upper(col + 1, i))
    ensures Slot(N, Lower(col, i)) < NodesTot(N) && Slot(N, Upper(col + 1, i)) < NodesTot(N)
    ensures NodeX(H, N, Slot(N, Lower(col, i))) == NodeX(H, N, Slot(N, Upper(col + 1, i)))
    ensures NodeY(H, tanPsi, N, Slot(N, Lower(col, i))) == -NodeY(H, tanPsi, N, Slot(N, Upper(col + 1, i)))
  {
    SlotBijective(N, Lower(col, i));
    SlotBijective(N, Upper(col + 1, i));
  }

  /** The two node passes (counter `n`): x_i[n] and y_i[n] are read from the
      base abscissas `xb` at the subscripts of the site that slot `n` holds. */
  method LayOutNodes(xb: array<real>, tanPsi: real, N: nat) returns (x: array<real>, y: array<real>)
    requires xb.Length == N + 1
    ensures x.Length == NodesTot(N) && y.Length == NodesTot(N)
    ensures forall n :: 0 <= n < NodesTot(N) ==>
      x[n] == xb[XSub(N, SiteAt(N, n))] && y[n] == Lateral(SiteAt(N, n), xb[YSub(N, SiteAt(N, n))], tanPsi)
  {
    x := new real[NodesTot(N)](_ => 0.0);
    y := new real[NodesTot(N)](_ => 0.0);
    var n := UpperPass(xb, tanPsi, N, x, y);
    n := LowerPass(xb, tanPsi, N, x, y, n);
  }

  /** First node pass: columns 0..N of the upper fold, the counter running
      from 0 to (N+1)(N+2)/2. */
  method UpperPass(xb: array<real>, tanPsi: real, N: nat, x: array<real>, y: array<real>) returns (n: nat)
    requires xb.Length == N + 1 && x.Length == NodesTot(N) && y.Length == NodesTot(N)
    requires x != y && xb != x && xb != y
    modifies x, y
    ensures n == PassASize(N) && n <= NodesTot(N)
    ensures forall k :: 0 <= k < n ==>
      x[k] == xb[XSub(N, SiteAt(N, k))] && y[k] == Lateral(SiteAt(N, k), xb[YSub(N, SiteAt(N, k))], tanPsi)
  {
    PassSizes(N);
    ghost var table := Layout(xb[..], tanPsi, N);
    n := 0;
    for col := 0 to N + 1
      invariant n == RowStart(N + 1, col) && n <= PassASize(N)
      invariant NodesDone(x, y, table, n)
    {
      for i := 0 to N + 1 - col
        invariant n == Rank(N + 1, col, i) && n <= PassASize(N)
        invariant NodesDone(x, y, table, n)
      {
        LayoutAt(xb[..], tanPsi, N, Upper(col, i));
        StepNode(xb, tanPsi, N, x, y, Upper(col, i), n, table);
        n := n + 1;
      }
    }
  }

  /** The coordinates the two node passes give each slot, from the base
      abscissas `b`. */
  ghost function Layout(b: seq<real>, tanPsi: real, N: nat): (t: seq<(real, real)>)
    requires |b| == N + 1
  {
    seq(NodesTot(N), k requires 0 <= k < NodesTot(N) =>
      (b[XSub(N, SiteAt(N, k))], Lateral(SiteAt(N, k), b[YSub(N, SiteAt(N, k))], tanPsi)))
  }

  /** The layout gives each site's slot that site's coordinates. */
  lemma LayoutAt(b: seq<real>, tanPsi: real, N: nat, s: Site)
    requires |b| == N + 1 && ValidSite(N, s)
    ensures Slot(N, s) < |Layout(b, tanPsi, N)|
    ensures Layout(b, tanPsi, N)[Slot(N, s)] == (b[XSub(N, s)], Lateral(s, b[YSub(N, s)], tanPsi))
  {
    SlotBijective(N, s);
  }

  /** Slots 0..m-1 of `x` and `y` hold the coordinates of `table`. */
  ghost predicate NodesDone(x: array<real>, y: array<real>, table: seq<(real, real)>, m: nat)
    reads x, y
  {
    m <= |table| && m <= x.Length && m <= y.Length &&
    forall k :: 0 <= k < m ==> x[k] == table[k].0 && y[k] == table[k].1
  }

  /** One step of either node pass: the site at counter value `n` gets its
      abscissa and its lateral coordinate, extending the finished prefix. */
  method StepNode(xb: array<real>, tanPsi: real, N: nat, x: array<real>, y: array<real>, s: Site, n: nat,
                  ghost table: seq<(real, real)>)
    requires xb.Length == N + 1 && x.Length == NodesTot(N) && y.Length == NodesTot(N)
    requires ValidSite(N, s) && n == Slot(N, s) && n < NodesTot(N)
    requires n < |table| && table[n] == (xb[XSub(N, s)], Lateral(s, xb[YSub(N, s)], tanPsi))
    requires x != y && xb != x && xb != y
    requires NodesDone(x, y, table, n)
    modifies x, y
    ensures NodesDone(x, y, table, n + 1)
  {
    match s
    case Upper(col, i) =>
      x[n] := xb[i + col];
      y[n] := xb[col] * tanPsi;
    case Lower(col, i) =>
      x[n] := xb[i + 1 + col];
      y[n] := -xb[col + 1] * tanPsi;
  }

  /** Second node pass: columns 0..N-1 of the lower fold, the counter running
      on from (N+1)(N+2)/2 to (N+1)^2. */
  method LowerPass(xb: array<real>, tanPsi: real, N: nat, x: array<real>, y: array<real>, n0: nat) returns (n: nat)
    requires xb.Length == N + 1 && x.Length == NodesTot(N) && y.Length == NodesTot(N)
    requires x != y && xb != x && xb != y
    requires n0 == PassASize(N) && n0 <= NodesTot(N)
    requires forall k :: 0 <= k < n0 ==>
      x[k] == xb[XSub(N, SiteAt(N, k))] && y[k] == Lateral(SiteAt(N, k), xb[YSub(N, SiteAt(N, k))], tanPsi)
    modifies x, y
    ensures n == NodesTot(N)
    ensures forall k :: 0 <= k < n ==>
      x[k] == xb[XSub(N, SiteAt(N, k))] && y[k] == Lateral(SiteAt(N, k), xb[YSub(N, SiteAt(N, k))], tanPsi)
  {
    PassSizes(N);
    ghost var table := Layout(xb[..], tanPsi, N);
    n := n0;
    for col := 0 to N
      invariant n == PassASize(N) + RowStart(N, col) && n <= NodesTot(N)
      invariant NodesDone(x, y, table, n)
    {
      for i := 0 to N - col
        invariant n == PassASize(N) + Rank(N, col, i) && n <= NodesTot(N)
        invariant NodesDone(x, y, table, n)
      {
        LayoutAt(xb[..], tanPsi, N, Lower(col, i));
        StepNode(xb, tanPsi, N, x, y, Lower(col, i), n, table);
        n := n + 1;
      }
    }
  }

  // ---------------------------------------------------------------------------
  // Connectivity
  // ---------------------------------------------------------------------------

  /** Position `i` of column `col` of the first (upper) or second (lower)
      element pass; both passes walk columns 0..N-1 of N-col positions. */
  datatype Cell = UpperCell(col: nat, i: nat) | LowerCell(col: nat, i: nat)

  predicate ValidCell(N: nat, c: Cell)
  {
    InTriangle(N, c.col, c.i)
  }

  /** Number of elements: N^2 + N. */
  function EleTot(N: nat): nat
  {
    N * N + N
  }

  /** Zero-based table row that the running counter `ele` gives to a cell. */
  function RowOfCell(N: nat, c: Cell): (r: nat)
    requires ValidCell(N, c)
    ensures c.UpperCell? <==> r < RowStart(N, N)
  {
    match c
    case UpperCell(col, i) => RankBound(N, col, i); Rank(N, col, i)
    case LowerCell(col, i) => RowStart(N, N) + Rank(N, col, i)
  }

  /** Each element pass emits N(N+1)/2 rows, together N^2 + N. */
  lemma ElementPassSizes(N: nat)
    ensures EleTot(N) == 2 * RowStart(N, N)
  {
    TriangleSize(N);
  }

  /** The cell whose table row is `r`: the inverse of `RowOfCell`. */
  function CellAt(N: nat, r: nat): (c: Cell)
    requires r < EleTot(N)
    ensures ValidCell(N, c) && RowOfCell(N, c) == r
    ensures c.UpperCell? <==> r < RowStart(N, N)
  {
    ElementPassSizes(N);
    if r < RowStart(N, N) then
      var p := Unrank(N, r); UpperCell(p.0, p.1)
    else
      var p := Unrank(N, r - RowStart(N, N)); LowerCell(p.0, p.1)
  }

  /** Every cell gets its own row of the element table. */
  lemma RowOfCellBijective(N: nat, c: Cell)
    requires ValidCell(N, c)
    ensures RowOfCell(N, c) < EleTot(N)
    ensures CellAt(N, RowOfCell(N, c)) == c
  {
    ElementPassSizes(N);
    UnrankRank(N, c.col, c.i);
  }

  /** The row the element builder writes for a cell, computed from the
      counter value `e` (the element id): [id, n1, n2, n3, n4], n4 = 0 for a
      triangle. */
  function ElementRow(N: nat, c: Cell): (row: seq<int>)
    requires ValidCell(N, c)
    ensures |row| == 5 && row[0] == RowOfCell(N, c) + 1
    ensures row[4] == 0 <==> c.i == 0
  {
    var e := RowOfCell(N, c) + 1;
    match c
    case UpperCell(col, i) =>
      var n1 := e + col;
      if i == 0 then [e, n1, n1 + (N + 1) - col, n1 + 1, 0]
      else [e, n1, n1 + N - col, n1 + N - col + 1, n1 + 1]
    case LowerCell(col, i) =>
      if i == 0 then
        var n2 := if col == 0 then 1 else e + col;
        [e, e + (N + 1), n2, n2 + 1, 0]
      else
        var n2 := if col == 0 then i + 1 else e + col;
        [e, e + N, n2, n2 + 1, e + (N + 1)]
  }

  /** Site `j` of the node column just inside lower column `col`: the
      previous lower column, or upper column 0 when col == 0. */
  function Neighbour(col: nat, j: nat): Site
  {
    if col == 0 then Upper(0, j) else Lower(col - 1, j)
  }

  /** The neighbouring column's slots, in terms of the second pass's counter. */
  lemma NeighbourSlot(N: nat, col: nat, j: nat)
    requires col < N && j <= N - col
    // An instance of PassSizes, passed in rather than re-derived to keep the proof small.
    requires PassASize(N) == RowStart(N, N) + N + 1
    ensures ValidSite(N, Neighbour(col, j))
    ensures col == 0 ==> Slot(N, Neighbour(col, j)) == j
    ensures col > 0 ==> Slot(N, Neighbour(col, j)) == RowStart(N, N) + RowStart(N, col) + col + j
  {
    if col > 0 {
      calc {
        Slot(N, Neighbour(col, j));
        PassASize(N) + RowStart(N, col - 1) + j;
        { assert RowStart(N, col) == RowStart(N, col - 1) + (N - (col - 1)); }
        RowStart(N, N) + RowStart(N, col) + col + j;
      }
    }
  }

  /** The nodes an element joins, as lattice sites: a triangle at the inner
      end (i == 0) of each row, a quadrilateral elsewhere.  The lower pass's
      column 0 closes onto the first column of the upper fold. */
  function Corners(c: Cell): seq<Site>
  {
    match c
    case UpperCell(col, i) =>
      if i == 0 then [Upper(col, 0), Upper(col + 1, 0), Upper(col, 1)]
      else [Upper(col, i), Upper(col + 1, i - 1), Upper(col + 1, i), Upper(col, i + 1)]
    case LowerCell(col, i) =>
      if i == 0 then [Lower(col, 0), Neighbour(col, 0), Neighbour(col, 1)]
      else [Lower(col, i - 1), Neighbour(col, i), Neighbour(col, i + 1), Lower(col, i)]
  }

  /** The counter arithmetic of the element builder joins exactly the corner
      sites: slot k of a row holds the node id of corner k-1, and a triangle
      leaves its fourth slot at 0. */
  lemma ElementRowCorners(N: nat, c: Cell)
    requires ValidCell(N, c)
    ensures |ElementRow(N, c)| == 5 && ElementRow(N, c)[0] == RowOfCell(N, c) + 1
    ensures |Corners(c)| == (if c.i == 0 then 3 else 4)
    ensures forall k :: 0 <= k < |Corners(c)| ==>
      ValidSite(N, Corners(c)[k]) && ElementRow(N, c)[k + 1] == Slot(N, Corners(c)[k]) + 1
    ensures c.i == 0 ==> ElementRow(N, c)[4] == 0
  {
    PassSizes(N);
    RowStartWiden(N, c.col);
    RowStartWiden(N, c.col + 1);
    if c.UpperCell? {
      UpperCellCorners(N, c.col, c.i);
    } else {
      LowerCellCorners(N, c.col, c.i);
    }
  }

  lemma UpperCellCorners(N: nat, col: nat, i: nat)
    requires InTriangle(N, col, i)
    // Instances of PassSizes and RowStartWiden, which hold for every N and
    // col; ElementRowCorners supplies them to keep this proof small.
    requires PassASize(N) == RowStart(N, N) + N + 1
    requires RowStart(N + 1, col) == RowStart(N, col) + col
    requires RowStart(N + 1, col + 1) == RowStart(N, col + 1) + col + 1
    ensures forall k :: 0 <= k < |Corners(UpperCell(col, i))| ==>
      ValidSite(N, Corners(UpperCell(col, i))[k]) &&
      ElementRow(N, UpperCell(col, i))[k + 1] == Slot(N, Corners(UpperCell(col, i))[k]) + 1
  {
  }

  lemma LowerCellCorners(N: nat, col: nat, i: nat)
    requires InTriangle(N, col, i)
    // Instances of PassSizes and RowStartWiden, which hold for every N and
    // col; ElementRowCorners supplies them to keep this proof small.
    requires PassASize(N) == RowStart(N, N) + N + 1
    requires RowStart(N + 1, col) == RowStart(N, col) + col
    ensures forall k :: 0 <= k < |Corners(LowerCell(col, i))| ==>
      ValidSite(N, Corners(LowerCell(col, i))[k]) &&
      ElementRow(N, LowerCell(col, i))[k + 1] == Slot(N, Corners(LowerCell(col, i))[k]) + 1
  {
    NeighbourSlot(N, col, i);
    NeighbourSlot(N, col, i + 1);
  }

  /** Node ids referenced by a row, without the unused fourth slot of a triangle. */
  predicate DistinctNodeIds(N: nat, ids: seq<int>)
  {
    (forall k :: 0 <= k < |ids| ==> 1 <= ids[k] <= NodesTot(N)) &&
    (forall j, k :: 0 <= j < k < |ids| ==> ids[j] != ids[k])
  }

  /** A triangle row: three distinct ids of existing nodes, slot 4 = 0. */
  predicate IsTriangle(N: nat, row: seq<int>)
  {
    |row| == 5 && DistinctNodeIds(N, row[1..4]) && row[4] == 0
  }

  /** A quadrilateral row: four distinct ids of existing nodes. */
  predicate IsQuad(N: nat, row: seq<int>)
  {
    |row| == 5 && DistinctNodeIds(N, row[1..5])
  }

  /** The element table, row by row: row r carries element id r+1, so the ids
      are 1..N^2+N, contiguous and in order. */
  function ElementTable(N: nat): (t: seq<seq<int>>)
    ensures |t| == EleTot(N)
    ensures forall r :: 0 <= r < |t| ==> |t[r]| == 5 && t[r][0] == r + 1
  {
    seq(EleTot(N), r requires 0 <= r < EleTot(N) => ElementRow(N, CellAt(N, r)))
  }

  /** Rows at the inner end of a row of cells are triangles, the others
      quadrilaterals; every id lies in [1, (N+1)^2] and no id repeats. */
  lemma ElementShape(N: nat, c: Cell)
    requires ValidCell(N, c)
    ensures c.i == 0 ==> IsTriangle(N, ElementRow(N, c))
    ensures c.i != 0 ==> IsQuad(N, ElementRow(N, c))
  {
    ElementRowCorners(N, c);
    var row := ElementRow(N, c);
    var ids := if c.i == 0 then row[1..4] else row[1..5];
    SlotsDistinct(N, Corners(c), ids);
  }

  /** Distinct valid sites have distinct node ids. */
  lemma SlotsDistinct(N: nat, cs: seq<Site>, ids: seq<int>)
    requires |ids| == |cs|
    requires forall k :: 0 <= k < |cs| ==> ValidSite(N, cs[k]) && ids[k] == Slot(N, cs[k]) + 1
    requires forall j, k :: 0 <= j < k < |cs| ==> cs[j] != cs[k]
    ensures DistinctNodeIds(N, ids)
  {
    forall k | 0 <= k < |ids|
      ensures 1 <= ids[k] <= NodesTot(N)
    {
      SlotBijective(N, cs[k]);
    }
    forall j, k | 0 <= j < k < |ids|
      ensures ids[j] != ids[k]
    {
      SlotBijective(N, cs[j]);
      SlotBijective(N, cs[k]);
    }
  }

  /** Every row of the table is a triangle exactly when its cell sits at the
      inner end of its row of cells, and a quadrilateral otherwise. */
  lemma ElementTableWellFormed(N: nat)
    ensures forall r :: 0 <= r < EleTot(N) ==>
      (CellAt(N, r).i == 0 ==> IsTriangle(N, ElementTable(N)[r])) &&
      (CellAt(N, r).i != 0 ==> IsQuad(N, ElementTable(N)[r]))
  {
    forall r | 0 <= r < EleTot(N)
      ensures CellAt(N, r).i == 0 ==> IsTriangle(N, ElementTable(N)[r])
      ensures CellAt(N, r).i != 0 ==> IsQuad(N, ElementTable(N)[r])
    {
      ElementRowCorners(N, CellAt(N, r));
      ElementShape(N, CellAt(N, r));
    }
  }

  /** The first element pass only joins nodes of the first node pass. */
  lemma FirstPassStaysUpper(N: nat, r: nat)
    requires r < RowStart(N, N)
    ensures r < EleTot(N)
    ensures forall k :: 1 <= k < 5 && ElementTable(N)[r][k] != 0 ==> 1 <= ElementTable(N)[r][k] <= PassASize(N)
  {
    ElementPassSizes(N);
    var c := CellAt(N, r);
    var row := ElementTable(N)[r];
    assert row == ElementRow(N, c);
    ElementRowCorners(N, c);
    forall k | 1 <= k < 5 && row[k] != 0
      ensures 1 <= row[k] <= PassASize(N)
    {
      assert k - 1 < |Corners(c)|;
      SlotBijective(N, Corners(c)[k - 1]);
    }
  }

  /** The first row of the second pass is the triangle that closes the lower
      fold onto the apex, node 1. */
  lemma ApexTriangle(N: nat)
    requires N >= 1
    ensures RowStart(N, N) < EleTot(N)
    ensures ElementTable(N)[RowStart(N, N)] == [RowStart(N, N) + 1, PassASize(N) + 1, 1, 2, 0]
  {
    ElementPassSizes(N);
    RowOfCellBijective(N, LowerCell(0, 0));
    PassSizes(N);
  }

  /** The table row the counter gives a cell holds that cell's element. */
  lemma TableRowOfCell(N: nat, c: Cell)
    requires ValidCell(N, c)
    ensures RowOfCell(N, c) < EleTot(N)
    ensures ElementTable(N)[RowOfCell(N, c)] == ElementRow(N, c)
  {
    RowOfCellBijective(N, c);
  }

  /** The two element passes (counter `ele`), writing the table cell by cell
      into a zero-filled N^2+N by 5 array. */
  method BuildElements(N: nat) returns (elems: array2<int>)
    ensures elems.Length0 == EleTot(N) && elems.Length1 == 5
    ensures forall r, k :: 0 <= r < EleTot(N) && 0 <= k < 5 ==> elems[r, k] == ElementTable(N)[r][k]
  {
    elems := new int[EleTot(N), 5]((_, _) => 0);
    var ele := UpperElements(N, elems);
    ele := LowerElements(N, elems, ele);
  }

  /** First element pass: the counter `ele` runs from 1 to N(N+1)/2 + 1. */
  method UpperElements(N: nat, elems: array2<int>) returns (ele: nat)
    requires elems.Length0 == EleTot(N) && elems.Length1 == 5
    requires forall r :: 0 <= r < EleTot(N) ==> elems[r, 4] == 0
    modifies elems
    ensures ele == 1 + RowStart(N, N) && ele - 1 <= EleTot(N)
    ensures forall r, k :: 0 <= r < ele - 1 && 0 <= k < 5 ==> elems[r, k] == ElementTable(N)[r][k]
    ensures forall r :: ele - 1 <= r < EleTot(N) ==> elems[r, 4] == 0
  {
    ElementPassSizes(N);
    ele := 1;
    ghost var table := ElementTable(N);
    for col := 0 to N
      invariant ele == 1 + RowStart(N, col) && ele - 1 <= RowStart(N, N)
      invariant RowsDone(elems, table, ele - 1) && TailClear(elems, ele - 1)
    {
      for i := 0 to N - col
        invariant ele == 1 + Rank(N, col, i) && ele - 1 <= RowStart(N, N)
        invariant RowsDone(elems, table, ele - 1) && TailClear(elems, ele - 1)
      {
        StepElement(N, elems, UpperCell(col, i), ele, table);
        ele := ele + 1;
      }
    }
  }

  /** Rows 0..m-1 of the array hold those of `table`. */
  ghost predicate RowsDone(elems: array2<int>, table: seq<seq<int>>, m: nat)
    reads elems
  {
    m <= elems.Length0 && elems.Length1 == 5 && m <= |table| &&
    forall r, k :: 0 <= r < m && 0 <= k < 5 ==> |table[r]| == 5 && elems[r, k] == table[r][k]
  }

  /** Rows m.. of the array still have slot 4 at its initial 0. */
  ghost predicate TailClear(elems: array2<int>, m: nat)
    reads elems
  {
    m <= elems.Length0 && elems.Length1 == 5 &&
    forall r :: m <= r < elems.Length0 ==> elems[r, 4] == 0
  }

  /** One step of either element pass: the cell's row is written at its
      counter value, extending the finished prefix by one row. */
  method StepElement(N: nat, elems: array2<int>, c: Cell, ele: nat, ghost table: seq<seq<int>>)
    requires ValidCell(N, c) && ele == RowOfCell(N, c) + 1 && table == ElementTable(N)
    requires elems.Length0 == EleTot(N)
    requires RowsDone(elems, table, ele - 1) && TailClear(elems, ele - 1)
    modifies elems
    ensures RowsDone(elems, table, ele) && TailClear(elems, ele)
  {
    TableRowOfCell(N, c);
    if c.UpperCell? {
      WriteUpperRow(N, elems, c.col, c.i, ele);
    } else {
      WriteLowerRow(N, elems, c.col, c.i, ele);
    }
  }

  /** One step of the first element pass: row ele-1 gets id `ele` and the
      node ids computed from `ele`, `col` and `i`; a triangle leaves slot 4. */
  method WriteUpperRow(N: nat, elems: array2<int>, col: nat, i: nat, ele: nat)
    requires InTriangle(N, col, i) && ele == RowOfCell(N, UpperCell(col, i)) + 1
    requires elems.Length1 == 5 && ele <= elems.Length0 && elems[ele - 1, 4] == 0
    modifies elems
    ensures forall k :: 0 <= k < 5 ==> elems[ele - 1, k] == ElementRow(N, UpperCell(col, i))[k]
    ensures forall r, k :: 0 <= r < elems.Length0 && r != ele - 1 && 0 <= k < 5 ==> elems[r, k] == old(elems[r, k])
  {
    ghost var row := ElementRow(N, UpperCell(col, i));
    assert row == if i == 0 then [ele, ele + col, ele + col + (N + 1) - col, ele + col + 1, 0]
                  else [ele, ele + col, ele + col + N - col, ele + col + N - col + 1, ele + col + 1];
    elems[ele - 1, 0] := ele;
    if i == 0 {
      elems[ele - 1, 1] := ele + col;
      elems[ele - 1, 2] := elems[ele - 1, 1] + (N + 1) - col;
      elems[ele - 1, 3] := elems[ele - 1, 1] + 1;
    } else {
      elems[ele - 1, 1] := ele + col;
      elems[ele - 1, 2] := elems[ele - 1, 1] + N - col;
      elems[ele - 1, 3] := elems[ele - 1, 2] + 1;
      elems[ele - 1, 4] := elems[ele - 1, 1] + 1;
    }
  }

  /** Second element pass: the counter `ele` runs on to N^2 + N + 1. */
  method LowerElements(N: nat, elems: array2<int>, ele0: nat) returns (ele: nat)
    requires elems.Length0 == EleTot(N) && elems.Length1 == 5
    requires ele0 == 1 + RowStart(N, N) && ele0 - 1 <= EleTot(N)
    requires forall r, k :: 0 <= r < ele0 - 1 && 0 <= k < 5 ==> elems[r, k] == ElementTable(N)[r][k]
    requires forall r :: ele0 - 1 <= r < EleTot(N) ==> elems[r, 4] == 0
    modifies elems
    ensures ele == EleTot(N) + 1
    ensures forall r, k :: 0 <= r < EleTot(N) && 0 <= k < 5 ==> elems[r, k] == ElementTable(N)[r][k]
  {
    ElementPassSizes(N);
    ele := ele0;
    ghost var table := ElementTable(N);
    for col := 0 to N
      invariant ele == 1 + RowStart(N, N) + RowStart(N, col) && ele - 1 <= elems.Length0
      invariant RowsDone(elems, table, ele - 1) && TailClear(elems, ele - 1)
    {
      for i := 0 to N - col
        invariant ele == 1 + RowStart(N, N) + Rank(N, col, i) && ele - 1 <= elems.Length0
        invariant RowsDone(elems, table, ele - 1) && TailClear(elems, ele - 1)
      {
        StepElement(N, elems, LowerCell(col, i), ele, table);
        ele := ele + 1;
      }
    }
  }

  /** One step of the second element pass: row ele-1 gets id `ele` and the
      node ids computed from `ele`, `col` and `i`, closing onto nodes 1..N+1
      when col == 0; a triangle leaves slot 4. */
  method WriteLowerRow(N: nat, elems: array2<int>, col: nat, i: nat, ele: nat)
    requires InTriangle(N, col, i) && ele == RowOfCell(N, LowerCell(col, i)) + 1
    requires elems.Length1 == 5 && ele <= elems.Length0 && elems[ele - 1, 4] == 0
    modifies elems
    ensures forall k :: 0 <= k < 5 ==> elems[ele - 1, k] == ElementRow(N, LowerCell(col, i))[k]
    ensures forall r, k :: 0 <= r < elems.Length0 && r != ele - 1 && 0 <= k < 5 ==> elems[r, k] == old(elems[r, k])
  {
    ghost var row := ElementRow(N, LowerCell(col, i));
    assert row == if i == 0 then
                    var n2 := if col == 0 then 1 else ele + col; [ele, ele + (N + 1), n2, n2 + 1, 0]
                  else
                    var n2 := if col == 0 then i + 1 else ele + col; [ele, ele + N, n2, n2 + 1, ele + (N + 1)];
    elems[ele - 1, 0] := ele;
    if i == 0 {
      elems[ele - 1, 1] := ele + (N + 1);
      elems[ele - 1, 2] := if col == 0 then 1 else ele + col;
      elems[ele - 1, 3] := elems[ele - 1, 2] + 1;
    } else {
      elems[ele - 1, 1] := ele + N;
      elems[ele - 1, 2] := if col == 0 then i + 1 else ele + col;
      elems[ele - 1, 3] := elems[ele - 1, 2] + 1;
      elems[ele - 1, 4] := ele + (N + 1);
    }
  }
}
