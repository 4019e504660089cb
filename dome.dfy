/** The parabolic (dome) panel: the rhombus mesh with the paraboloid height
    law z = (Re cos^2(psi) / H^2) (x^2 + y^2), which depends on the distance
    from the apex alone. */
module Dome {
  import opened Mesh
  import opened Rhombus

  /** Height of a node at (x, y); `cos2` stands for cos(psi)^2. */
  function Height(H: real, Re: real, cos2: real, x: real, y: real): (z: real)
    requires H != 0.0
    ensures x == 0.0 && y == 0.0 ==> z == 0.0
    ensures x * x + y * y == H * H ==> z == Re * cos2
  {
    assert x * x + y * y == H * H ==> (Re * cos2 / (H * H)) * (x * x + y * y) == Re * cos2;
    (Re * cos2 / (H * H)) * (x * x + y * y)
  }

  /** The height loop: z_i[n] from x_i[n] and y_i[n]. */
  method Heights(H: real, Re: real, cos2: real, x: array<real>, y: array<real>) returns (z: array<real>)
    requires H != 0.0 && x.Length == y.Length
    ensures z.Length == x.Length
    ensures forall n :: 0 <= n < x.Length ==> z[n] == Height(H, Re, cos2, x[n], y[n])
  {
    z := new real[x.Length];
    for n := 0 to x.Length
      invariant forall k :: 0 <= k < n ==> z[k] == Height(H, Re, cos2, x[k], y[k])
    {
      z[n] := Height(H, Re, cos2, x[n], y[n]);
    }
  }

  /** The whole generator: node table rows (id, x, y, z) and element table.
      `tanPsi` and `cos2` stand for tan(pi/Ne) and cos(pi/Ne)^2.  The element
      table is the same `ElementTable(N)` the conical panel produces. */
  method Generate(H: real, Re: real, tanPsi: real, cos2: real, N: nat) returns (nodes: array2<real>, elems: array2<int>)
    requires H != 0.0
    ensures nodes.Length0 == NodesTot(N) && nodes.Length1 == 4
    ensures forall n :: 0 <= n < NodesTot(N) ==>
      nodes[n, 0] == (n + 1) as real &&
      nodes[n, 1] == NodeX(H, N, n) && nodes[n, 2] == NodeY(H, tanPsi, N, n) &&
      nodes[n, 3] == Height(H, Re, cos2, NodeX(H, N, n), NodeY(H, tanPsi, N, n))
    ensures elems.Length0 == EleTot(N) && elems.Length1 == 5
    ensures forall r, k :: 0 <= r < EleTot(N) && 0 <= k < 5 ==> elems[r, k] == ElementTable(N)[r][k]
  {
    var xb := BaseAbscissas(H, N);
    var x, y := LayOutNodes(xb, tanPsi, N);
    var z := Heights(H, Re, cos2, x, y);
    nodes := NodeTable(x, y, z);
    elems := BuildElements(N);
  }

  /** Node 1 is the apex (0, 0, 0). */
  lemma ApexAtOrigin(H: real, Re: real, tanPsi: real, cos2: real, N: nat)
    requires H > 0.0 && N >= 1
    ensures NodeX(H, N, 0) == 0.0 && NodeY(H, tanPsi, N, 0) == 0.0
    ensures Height(H, Re, cos2, NodeX(H, N, 0), NodeY(H, tanPsi, N, 0)) == 0.0
  {
    ApexNode(H, tanPsi, N);
  }

  /** Node N+1, the rim end of the first column, is (H, 0, Re cos^2(psi)):
      the dome reaches Re only where x^2 + y^2 = H^2 / cos^2(psi). */
  lemma RimAxisHeight(H: real, Re: real, tanPsi: real, cos2: real, N: nat)
    requires H > 0.0 && N >= 1
    ensures NodeX(H, N, N) == H && NodeY(H, tanPsi, N, N) == 0.0
    ensures Height(H, Re, cos2, NodeX(H, N, N), NodeY(H, tanPsi, N, N)) == Re * cos2
  {
    RimAxisNode(H, tanPsi, N);
    assert Height(H, Re, cos2, H, 0.0) == (Re * cos2 / (H * H)) * (H * H);
  }

  /** The height depends on x^2 + y^2 only: reflecting a point across the
      x axis, or moving it on a circle about the apex, keeps its height. */
  lemma HeightRadial(H: real, Re: real, cos2: real, x1: real, y1: real, x2: real, y2: real)
    requires H != 0.0
    ensures x1 * x1 + y1 * y1 == x2 * x2 + y2 * y2 ==>
      Height(H, Re, cos2, x1, y1) == Height(H, Re, cos2, x2, y2)
    ensures Height(H, Re, cos2, x1, -y1) == Height(H, Re, cos2, x1, y1)
  {
    assert (-y1) * (-y1) == y1 * y1;
  }

  /** A node of the lower fold and its mirror image on the upper fold are at
      the same height. */
  lemma MirrorHeight(H: real, Re: real, tanPsi: real, cos2: real, N: nat, col: nat, i: nat)
    requires H > 0.0 && ValidSite(N, Lower(col, i))
    ensures ValidSite(N, Upper(col + 1, i))
    ensures Slot(N, Lower(col, i)) < NodesTot(N) && Slot(N, Upper(col + 1, i)) < NodesTot(N)
    ensures
      var lo, up := Slot(N, Lower(col, i)), Slot(N, Upper(col + 1, i));
      Height(H, Re, cos2, NodeX(H, N, lo), NodeY(H, tanPsi, N, lo)) ==
      Height(H, Re, cos2, NodeX(H, N, up), NodeY(H, tanPsi, N, up))
  {
    Mirror(H, tanPsi, N, col, i);
    var up := Slot(N, Upper(col + 1, i));
    var x, y := NodeX(H, N, up), NodeY(H, tanPsi, N, up);
    HeightRadial(H, Re, cos2, x, y, x, y);
  }
}
