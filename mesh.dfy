/** Pieces shared by the three panel generators: evenly spaced samples, the
    row-major numbering of a rectangular lattice, and the node table whose rows
    are (id, x, y, z). */
module Mesh {

  /** Number of nodes of a panel with subdivision `N`: (N+1)^2 for every generator. */
  function NodesTot(N: nat): nat
  {
    (N + 1) * (N + 1)
  }

  /** Sample `k` of `num` evenly spaced values from `start` to `stop`, both
      ends included (numpy's linspace over exact reals; a single sample is
      `start`). */
  function Linspace(start: real, stop: real, num: nat, k: nat): (r: real)
    requires k < num
    ensures start <= stop ==> start <= r <= stop
    ensures stop <= start ==> stop <= r <= start
  {
    if num == 1 then start
    else
      var t := (k as real) / ((num - 1) as real);
      assert 0.0 <= t <= 1.0;
      assert (stop - start) * (k as real) / ((num - 1) as real) == (stop - start) * t;
      ScaleBetween(stop - start, t);
      start + (stop - start) * (k as real) / ((num - 1) as real)
  }

  /** Scaling by a fraction in [0, 1] keeps a value between 0 and itself. */
  lemma ScaleBetween(d: real, t: real)
    requires 0.0 <= t <= 1.0
    ensures d >= 0.0 ==> 0.0 <= d * t <= d
    ensures d <= 0.0 ==> d <= d * t <= 0.0
  {
    assert d - d * t == d * (1.0 - t);
  }

  /** The first sample is `start` and the last one is `stop`. */
  lemma LinspaceEnds(start: real, stop: real, num: nat)
    requires num >= 1
    ensures Linspace(start, stop, num, 0) == start
    ensures num > 1 ==> Linspace(start, stop, num, num - 1) == stop
  {
  }

  /** Base abscissa `k` of a panel of apothem `H` cut into `N` strips. */
  function XBase(H: real, N: nat, k: nat): real
    requires k <= N
  {
    Linspace(0.0, H, N + 1, k)
  }

  /** The base abscissas are H*k/N, running from 0 at the apex to H at the rim. */
  lemma XBaseValue(H: real, N: nat, k: nat)
    requires N >= 1 && k <= N
    ensures XBase(H, N, k) == H * (k as real) / (N as real)
    ensures k == 0 ==> XBase(H, N, k) == 0.0
    ensures k == N ==> XBase(H, N, k) == H
  {
  }

  /** The N+1 base abscissas 0, H/N, ..., H (`np.linspace(0, H, N+1)`). */
  method BaseAbscissas(H: real, N: nat) returns (xb: array<real>)
    ensures fresh(xb) && xb.Length == N + 1
    ensures forall k :: 0 <= k <= N ==> xb[k] == XBase(H, N, k)
  {
    xb := new real[N + 1](k => if 0 <= k <= N then XBase(H, N, k) else 0.0);
  }

  /** Flat index of point (col, s) of a lattice with `w` points per column. */
  function Flat(w: nat, col: nat, s: nat): nat
  {
    col * w + s
  }

  /** A point of a lattice of `h` columns of `w` points has a flat index
      below h*w. */
  lemma FlatInRange(w: nat, h: nat, col: nat, s: nat)
    requires col < h && s < w
    ensures Flat(w, col, s) < h * w
  {
    MulMono(h, col + 1, w);
  }

  /** The slot after the last point of a column is the first of the next. */
  lemma FlatNext(w: nat, col: nat)
    ensures Flat(w, col, w) == Flat(w, col + 1, 0)
  {
  }

  /** Every flat index below h*w splits into a column below `h` and a position
      below `w`: quotient and remainder by the column height. */
  lemma FlatSplit(w: nat, h: nat, n: nat)
    requires n < h * w
    ensures w > 0 && n / w < h && Flat(w, n / w, n % w) == n
  {
    if n / w >= h {
      MulMono(n / w, h, w);
    }
  }

  /** Row-major numbering is a bijection: the column and the position of a
      flat index are its quotient and remainder by the column height. */
  lemma FlatDecode(w: nat, col: nat, s: nat)
    requires s < w
    ensures Flat(w, col, s) / w == col && Flat(w, col, s) % w == s
  {
    var a := Flat(w, col, s);
    var q, r := a / w, a % w;
    assert (q - col) * w == s - r;
    if q < col {
      MulMono(col - q, 1, w);
    } else if q > col {
      MulMono(q - col, 1, w);
    }
  }

  lemma MulMono(a: nat, b: nat, w: nat)
    requires a >= b
    ensures a * w >= b * w
  {
    assert a * w == b * w + (a - b) * w;
  }

  /** Column of flat index `n` of a lattice of `h` columns of `w` points. */
  function Column(w: nat, h: nat, n: nat): (col: nat)
    requires n < h * w
    ensures col < h && n % w < w && Flat(w, col, n % w) == n
  {
    FlatSplit(w, h, n);
    n / w
  }

  /** The node table: row `n` holds the 1-based id n+1 and the position of node n. */
  method NodeTable(x: array<real>, y: array<real>, z: array<real>) returns (nodes: array2<real>)
    requires x.Length == y.Length == z.Length
    ensures nodes.Length0 == x.Length && nodes.Length1 == 4
    ensures forall n :: 0 <= n < x.Length ==>
      nodes[n, 0] == (n + 1) as real && nodes[n, 1] == x[n] && nodes[n, 2] == y[n] && nodes[n, 3] == z[n]
  {
    nodes := new real[x.Length, 4];
    for n := 0 to x.Length
      invariant forall k :: 0 <= k < n ==>
        nodes[k, 0] == (k + 1) as real && nodes[k, 1] == x[k] && nodes[k, 2] == y[k] && nodes[k, 3] == z[k]
    {
      nodes[n, 0] := (n + 1) as real;
      nodes[n, 1] := x[n];
      nodes[n, 2] := y[n];
      nodes[n, 3] := z[n];
    }
  }
}
