/** The conical (pyramid) panel: the rhombus mesh with the straight height law
    z = (Re/H) x, rising from the apex at the origin to height Re at the rim. */
module Pyramid {
  import opened Mesh
  import opened Rhombus

  /** Height of a node at abscissa `x` (a straight generatrix of slope Re/H). */
  function Height(H: real, Re: real, x: real): (z: real)
    requires H != 0.0
    ensures x == 0.0 ==> z == 0.0
    ensures x == H ==> z == Re
  {
    (Re / H) * x
  }

  /** The height loop: z_i[n] from x_i[n] alone. */
  method Heights(H: real, Re: real, x: array<real>) returns (z: array<real>)
    requires H != 0.0
    ensures z.Length == x.Length
    ensures forall n :: 0 <= n < x.Length ==> z[n] == Height(H, Re, x[n])
  {
    z := new real[x.Length];
    for n := 0 to x.Length
      invariant forall k :: 0 <= k < n ==> z[k] == Height(H, Re, x[k])
    {
      z[n] := Height(H, Re, x[n]);
    }
  }

  /** The whole generator: node table rows (id, x, y, z) and element table.
      `tanPsi` stands for tan(pi/Ne). */
  method Generate(H: real, Re: real, tanPsi: real, N: nat) returns (nodes: array2<real>, elems: array2<int>)
    requires H != 0.0
    ensures nodes.Length0 == NodesTot(N) && nodes.Length1 == 4
    ensures forall n :: 0 <= n < NodesTot(N) ==>
      nodes[n, 0] == (n + 1) as real &&
      nodes[n, 1] == NodeX(H, N, n) && nodes[n, 2] == NodeY(H, tanPsi, N, n) &&
      nodes[n, 3] == Height(H, Re, NodeX(H, N, n))
    ensures elems.Length0 == EleTot(N) && elems.Length1 == 5
    ensures forall r, k :: 0 <= r < EleTot(N) && 0 <= k < 5 ==> elems[r, k] == ElementTable(N)[r][k]
  {
    var xb := BaseAbscissas(H, N);
    var x, y := LayOutNodes(xb, tanPsi, N);
    var z := Heights(H, Re, x);
    nodes := NodeTable(x, y, z);
    elems := BuildElements(N);
  }

  /** Node 1 is the apex (0, 0, 0). */
  lemma ApexAtOrigin(H: real, Re: real, tanPsi: real, N: nat)
    requires H > 0.0 && N >= 1
    ensures NodeX(H, N, 0) == 0.0 && NodeY(H, tanPsi, N, 0) == 0.0 && Height(H, Re, NodeX(H, N, 0)) == 0.0
  {
    ApexNode(H, tanPsi, N);
  }

  /** Every node on the rim (base subscript N, abscissa H) is at height Re. */
  lemma RimHeight(H: real, Re: real, N: nat, s: Site)
    requires H > 0.0 && N >= 1 && ValidSite(N, s) && XSub(N, s) == N
    ensures Slot(N, s) < NodesTot(N)
    ensures NodeX(H, N, Slot(N, s)) == H && Height(H, Re, NodeX(H, N, Slot(N, s))) == Re
  {
    SlotBijective(N, s);
    XBaseValue(H, N, N);
  }

  /** Height grows with the distance from the apex: it is Re * x / H, so it
      is 0 at the apex, Re at the rim and monotone when Re >= 0. */
  lemma HeightLaw(H: real, Re: real, x1: real, x2: real)
    requires H > 0.0
    ensures Height(H, Re, x1) == Re * x1 / H
    ensures Re >= 0.0 && x1 <= x2 ==> Height(H, Re, x1) <= Height(H, Re, x2)
  {
    if Re >= 0.0 && x1 <= x2 {
      assert Height(H, Re, x2) - Height(H, Re, x1) == (Re / H) * (x2 - x1);
      NonNegativeSlope(Re, H, x2 - x1);
    }
  }

  lemma NonNegativeSlope(Re: real, H: real, d: real)
    requires Re >= 0.0 && H > 0.0 && d >= 0.0
    ensures (Re / H) * d >= 0.0
  {
    assert Re / H >= 0.0;
  }

  /** A node of the lower fold and its mirror image on the upper fold are at
      the same height, since the height depends on x alone. */
  lemma MirrorHeight(H: real, Re: real, tanPsi: real, N: nat, col: nat, i: nat)
    requires H > 0.0 && ValidSite(N, Lower(col, i))
    ensures ValidSite(N, Upper(col + 1, i))
    ensures Slot(N, Lower(col, i)) < NodesTot(N) && Slot(N, Upper(col + 1, i)) < NodesTot(N)
    ensures Height(H, Re, NodeX(H, N, Slot(N, Lower(col, i)))) == Height(H, Re, NodeX(H, N, Slot(N, Upper(col + 1, i))))
  {
    Mirror(H, tanPsi, N, col, i);
  }
}
