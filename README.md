# Umbrella panel meshes

The umbrella designer generates one panel of a segmented umbrella shell as a
finite-element mesh. Each generator takes the panel's apothem `H`, its rise
`Re`, the number of panels `Ne` (giving the half-angle psi = pi/Ne) and a
subdivision `N`. It returns:

- a node table of (N+1)^2 rows `(id, x, y, z)`;
- an element table whose rows are `(id, n1, n2, n3, n4)`. A triangle leaves
  `n4 = 0`.

There are three generators:

- `pyramid` (`src/pyramid.py`) builds a conical panel with z = (Re/H) x.
- `dome` (`dome.py`) builds a parabolic panel with
  z = (Re cos^2 psi / H^2)(x^2 + y^2).
- `hypar` (`src/hypar.py`) builds a hyperbolic-paraboloid panel on a square
  lattice. The lattice is folded across its diagonal, rotated by -psi and
  joined by a grid of N^2 quadrilaterals.

The model is written in Dafny and has these modules:

- `Mesh` holds evenly spaced samples (numpy's `linspace` over exact reals),
  row-major lattice numbering and the node-table loop.
- `Triangular` enumerates a triangle of lattice positions row by row. The
  running counters of the dome and pyramid loops walk such triangles.
- `Rhombus` holds the node passes and the two-pass element builder that
  `pyramid` and `dome` share. The source repeats this code in both files.
  The node passes lay out an upper and a lower fold of nodes with a running
  counter `n`. The element builder fills the connectivity table cell by cell
  with a running counter `ele`. Each loop is an array method proved against a
  specification function:
  - `SiteAt`/`NodeX`/`NodeY` for the nodes;
  - `ElementTable` for the elements.

  Lemmas prove what the index arithmetic means:
  - every node slot is written exactly once;
  - all subscripts are in range;
  - the lower fold mirrors the upper one;
  - each element row joins the right corner nodes;
  - triangles and quadrilaterals have distinct node ids in range.
- `Pyramid` and `Dome` are the two height laws and the generators built on
  `Rhombus`. Both generators produce the same `Rhombus.ElementTable(N)`.
- `Hypar` holds:
  - the lattice loop, which rewrites `xp_base_i`/`xp_index_i` in place;
  - the yp sampling, the projection, the fold, the rotation and the quad grid.

  Its trigonometric laws get_z, get_K, get_xy, sym and rotate (src/hypar.py:9-38)
  are the fields of the `Hypar.Laws` datatype, which has no operations of its own.

## Model

| member | source | states |
|---|---|---|
| Mesh.Linspace | src/pyramid.py:16 | sample k of num evenly spaced values lies between start and stop, whichever is larger |
| Mesh.LinspaceEnds | src/pyramid.py:16 | an evenly spaced sample starts at `start` and, with more than one sample, ends at `stop` |
| Mesh.XBaseValue | src/pyramid.py:16 | base abscissa k of N+1 is H*k/N: 0 at the apex and H at the rim |
| Mesh.BaseAbscissas | src/hypar.py:41 | the freshly allocated base abscissa array holds H*k/N at subscript k = 0..N |
| Mesh.FlatInRange | src/hypar.py:77 | a lattice point (col, s), with col < h and s < w, has flat index col*w + s below h*w |
| Mesh.FlatSplit | src/hypar.py:44-56 | every flat index below h*w is col*w + s for its quotient col < h and its remainder s |
| Mesh.FlatDecode | src/hypar.py:49-56 | the quotient and remainder of col*w + s by w give back col and s, so flat numbering is a bijection |
| Mesh.Column | src/hypar.py:49-56 | the column of a flat index is below the column count, and column and position rebuild the index |
| Mesh.NodeTable | src/pyramid.py:39-42 | node table row n is (n+1, x[n], y[n], z[n]); dome.py:44-49 is the same loop |
| Triangular.RowStartClosedForm | src/pyramid.py:22-27 | the counter before column col of a width-m triangle is col*(2m+1-col)/2 |
| Triangular.RowStartWiden | src/pyramid.py:49-55 | a triangle one wider has exactly col more positions before column col, which makes `ele + col` a first-pass node |
| Triangular.RowStartGap | src/pyramid.py:22-27 | every column of the walk ends before any later column starts |
| Triangular.TriangleSize | src/pyramid.py:44 | a width-m triangle holds m(m+1)/2 positions |
| Triangular.RankInjective | src/pyramid.py:22-27 | two positions of the triangle that get the same counter value are the same position |
| Triangular.RankBound | src/pyramid.py:22-27 | every counter value of the walk is below the triangle's size |
| Triangular.UnrankFrom | src/pyramid.py:22-27 | the walk from column col reaches a position of the triangle whose counter is RowStart(col)+k |
| Triangular.Unrank | src/pyramid.py:22-27 | every counter value below the triangle's size belongs to a position of the triangle |
| Triangular.UnrankRank | src/pyramid.py:22-27 | unranking a position's counter value gives that position back |
| Rhombus.PassSizes | src/pyramid.py:15 | pass A lays out (N+1)(N+2)/2 nodes and pass B N(N+1)/2, which together are nodes_tot = (N+1)^2 |
| Rhombus.Slot | src/pyramid.py:22-33 | the value of the counter `n` when the passes reach a site; pass-A sites, and only they, get slots below (N+1)(N+2)/2 |
| Rhombus.SiteAt | src/pyramid.py:22-33 | every slot below nodes_tot is written by one site, of pass A exactly when the slot is below (N+1)(N+2)/2 |
| Rhombus.SlotBijective | src/pyramid.py:22-33 | every site's slot is below nodes_tot and belongs to its pass, and the site can be recovered from the slot, so each slot is written once |
| Rhombus.NodeX | src/pyramid.py:22-33 | x_i[n] of slot n lies in [0, H] when H >= 0 |
| Rhombus.NodeY | src/pyramid.py:22-33 | y_i[n] is >= 0 on the upper fold (pass A) and <= 0 on the lower fold (pass B) when H, tan psi >= 0 |
| Rhombus.XSub | src/pyramid.py:25 | the x_base_i subscripts i+col (pass A) and i+1+col (pass B) stay in [0, N] |
| Rhombus.YSub | src/pyramid.py:26 | the x_base_i subscripts col (pass A) and col+1 (pass B) stay in [0, N] |
| Rhombus.ApexNode | src/pyramid.py:22-26 | node 1 is site (0, 0) at x = 0, y = 0 |
| Rhombus.RimAxisNode | src/pyramid.py:22-26 | node N+1, the end of column 0, is at x = H, y = 0 |
| Rhombus.Mirror | src/pyramid.py:25-32 | pass-B node (col, i) has the x of pass-A node (col+1, i) and the negated y |
| Rhombus.LayOutNodes | src/pyramid.py:17-33 | x_i[n] and y_i[n] are read from x_base_i at the subscripts of the site holding slot n, for every slot |
| Rhombus.UpperPass | src/pyramid.py:22-27 | pass A fills slots 0..(N+1)(N+2)/2-1 from their sites, and the counter ends there |
| Rhombus.LowerPass | src/pyramid.py:29-33 | pass B fills the remaining slots up to nodes_tot, keeping pass A's |
| Rhombus.StepNode | src/pyramid.py:22-33 | one step of either pass writes x_i[n] = x_base_i[i+col] (or [i+1+col]) and y_i[n] = +-x_base_i[col] tan psi (or [col+1]) at its site's slot, extending the filled prefix by one and keeping it |
| Rhombus.ElementPassSizes | src/pyramid.py:44 | each element pass emits N(N+1)/2 rows, together ele_tot = N^2+N |
| Rhombus.RowOfCell | src/pyramid.py:49-77 | the value of `ele` - 1 when the passes reach a cell; first-pass cells, and only they, get rows below N(N+1)/2 |
| Rhombus.CellAt | src/pyramid.py:49-77 | every row below ele_tot is written by one cell, of the first pass exactly when the row is below N(N+1)/2 |
| Rhombus.RowOfCellBijective | src/pyramid.py:49-77 | every cell's row is below ele_tot and the cell can be recovered from it, so each row is written once |
| Rhombus.NeighbourSlot | src/pyramid.py:69 | the column inside lower column col is upper column 0 when col == 0, giving ids i+1; otherwise it is lower column col-1, giving ids `ele + col` |
| Rhombus.ElementRow | src/pyramid.py:51-77 | the five entries written for a cell: slot 0 is the element id ele, and slot 4 is 0 exactly for the triangle at i == 0 |
| Rhombus.ElementRowCorners | src/pyramid.py:49-77 | slot k of each element row is the node id of the cell's corner k-1; slot 0 is the element id and a triangle leaves slot 4 at 0 |
| Rhombus.UpperCellCorners | src/pyramid.py:51-62 | first-pass rows join (col,i), (col+1,i-1), (col+1,i), (col,i+1), or the three corners (col,0), (col+1,0), (col,1) of a triangle |
| Rhombus.LowerCellCorners | src/pyramid.py:66-77 | second-pass rows join the lower fold to the column inside it |
| Rhombus.ElementTable | src/pyramid.py:44-51 | the table has N^2+N rows of 5 entries, and row r carries element id r+1, so ids are 1..N^2+N in order |
| Rhombus.ElementShape | src/pyramid.py:52-62 | rows with i == 0 are triangles (3 distinct ids in [1, (N+1)^2], slot 4 = 0); the others are quads with 4 distinct ids in range |
| Rhombus.SlotsDistinct | src/pyramid.py:49-77 | distinct valid sites give distinct node ids in [1, (N+1)^2] |
| Rhombus.ElementTableWellFormed | dome.py:60-96 | every row of the table is a triangle or a quad as its cell's position says, with node ids in range and no repeats |
| Rhombus.FirstPassStaysUpper | src/pyramid.py:49-62 | first-pass elements reference only pass-A nodes [1, (N+1)(N+2)/2] |
| Rhombus.ApexTriangle | src/pyramid.py:67-70 | the first second-pass row is the triangle [.., (N+1)(N+2)/2+1, 1, 2, 0] closing onto apex node 1 |
| Rhombus.TableRowOfCell | src/pyramid.py:49-77 | the row the counter gives a cell holds that cell's element |
| Rhombus.BuildElements | src/pyramid.py:44-77 | the zero-filled ele_tot x 5 table ends equal to ElementTable(N), cell for cell |
| Rhombus.UpperElements | src/pyramid.py:46-62 | the first pass fills rows 0..N(N+1)/2-1, leaves slot 4 of the rest at 0, and ends with ele = N(N+1)/2+1 |
| Rhombus.WriteUpperRow | src/pyramid.py:51-61 | one first-pass step writes the cell's row and nothing else |
| Rhombus.LowerElements | src/pyramid.py:64-77 | the second pass fills the remaining rows, keeps the first pass's, and ends with ele = N^2+N+1 |
| Rhombus.WriteLowerRow | src/pyramid.py:66-76 | one second-pass step writes the cell's row and nothing else |
| Pyramid.Height | src/pyramid.py:12-13 | get_z: height 0 at the apex abscissa x = 0 and Re at the rim abscissa x = H |
| Pyramid.Heights | src/pyramid.py:35-37 | z_i[n] = (Re/H) x_i[n] for every node |
| Pyramid.Generate | src/pyramid.py:7-80 | node row n is (n+1, x, y, (Re/H)x) of the site holding slot n, and the element table is ElementTable(N) |
| Pyramid.ApexAtOrigin | src/pyramid.py:12-13 | node 1 is (0, 0, 0) |
| Pyramid.RimHeight | src/pyramid.py:12-13 | every node site whose x subscript is N sits at x = H and height z = Re |
| Pyramid.HeightLaw | src/pyramid.py:12-13 | z = Re x / H, monotone in x when Re >= 0 |
| Pyramid.MirrorHeight | src/pyramid.py:29-37 | a pass-B node and its pass-A mirror are at the same height |
| Dome.Height | dome.py:17-19 | get_z: height 0 at the apex and Re cos^2 psi at plan radius H |
| Dome.Heights | dome.py:39-41 | z_i[n] = (Re cos^2 psi / H^2)(x_i[n]^2 + y_i[n]^2) for every node |
| Dome.Generate | dome.py:13-114 | node row n is (n+1, x, y, z(x, y)) of the site holding slot n, and the element table is the same ElementTable(N) as the pyramid's |
| Dome.ApexAtOrigin | dome.py:17-18 | node 1 is (0, 0, 0) |
| Dome.RimAxisHeight | dome.py:17-18 | node N+1 is (H, 0, Re cos^2 psi), not Re |
| Dome.HeightRadial | dome.py:17-18 | z depends only on x^2 + y^2, so it is the same at (x, y) and (x, -y) |
| Dome.MirrorHeight | dome.py:34-41 | a pass-B node and its pass-A mirror are at the same height |
| Hypar.ColOf | src/hypar.py:49-56 | every node slot lies in a lattice column 0..N |
| Hypar.PosOf | src/hypar.py:53-56 | slot n is col*(N+1) + s for its column and its position s <= N |
| Hypar.SampleInRange | src/hypar.py:62-63 | min(i, col) <= max(i, col), so the linspace lookup is in range |
| Hypar.LatticeSymmetric | src/hypar.py:49-63 | lattice points (col, s) and (s, col) have the same raw xp and yp |
| Hypar.RawYpEdges | src/hypar.py:58-64 | yp = 0 when i == 0 or col == 0, and yp = K(xp) on the diagonal |
| Hypar.RawXpRange | src/hypar.py:41-56 | raw xp is 0 at point (0, 0) and H on the last column and the last row |
| Hypar.BuildLattice | src/hypar.py:41-56 | node n = col*(N+1)+s gets xp = the base abscissa at max(s, col) and index_i[n] = max(s, col) |
| Hypar.SpreadColumn | src/hypar.py:50-52 | after column col of the i-loop, xp_index_i[t] = max(t, col) and xp_base_i[t] is the original base abscissa at max(t, col) |
| Hypar.CopyColumn | src/hypar.py:53-56 | the s-loop copies both arrays into the next N+1 slots and keeps the earlier ones |
| Hypar.RawYp | src/hypar.py:62-63 | yp of lattice point (col, s) is a linspace sample, so it lies between 0 and get_K(xp) |
| Hypar.SampleYp | src/hypar.py:58-64 | yp_i[n] is sample min(i, col) of the index_i[n]+1 values from 0 to K(xp_i[n]), given that lookup is in range |
| Hypar.SampleColumn | src/hypar.py:61-64 | one column of yp samples, keeping the earlier ones |
| Hypar.FoldedXY | src/hypar.py:73-80 | after the fold a point on or above the diagonal keeps get_xy, and one below it is sym of the get_xy of its partner (i, col) |
| Hypar.FoldMirrorsPartner | src/hypar.py:73-80 | a folded point (i < col) lands at the reflection of its unfolded partner (col, i) -> (i, col), at the same height |
| Hypar.Project | src/hypar.py:70 | nodes_ij holds get_xy(xp, yp) and get_z(xp, yp) of every node |
| Hypar.Fold | src/hypar.py:73-80 | the copy reflects (x, y) exactly at the points with i < col, at flat index i + (N+1)col; z and the other points are unchanged |
| Hypar.FoldColumn | src/hypar.py:75-80 | one column of the fold, rewriting only its points with i < col |
| Hypar.Rotate | src/hypar.py:82-85 | the rotation changes only x and y of each node; z is copied |
| Hypar.NodeRows | src/hypar.py:96-98 | node table row n is (n+1, x, y, z) of column n |
| Hypar.QuadRow | src/hypar.py:92-93 | an element row has five entries |
| Hypar.QuadTable | src/hypar.py:87-94 | the table has N^2 rows |
| Hypar.QuadCorners | src/hypar.py:92-93 | element (col, row) has id col*N+row+1 and joins lattice points (col,row), (col+1,row), (col+1,row+1), (col,row+1) |
| Hypar.QuadWellFormed | src/hypar.py:92-93 | the four node ids of every quad are distinct and in [1, (N+1)^2] |
| Hypar.QuadTableRows | src/hypar.py:89-94 | table row col*N+row is element (col, row), with id col*N+row+1, so ids are 1..N^2 in order |
| Hypar.QuadMaxId | src/hypar.py:92-93 | the quad at col = row = N-1 reaches node (N+1)^2 |
| Hypar.SingleQuad | src/hypar.py:87-94 | with N = 1 the table is the single row [1, 1, 3, 4, 2] |
| Hypar.BuildQuads | src/hypar.py:87-94 | the N^2 x 5 table equals QuadTable(N) |
| Hypar.WriteQuad | src/hypar.py:93 | one step writes row n of the quad grid and nothing else |
| Hypar.Generate | src/hypar.py:5-101 | node row n is (n+1, rotate(fold(get_xy(xp, yp))), get_z(xp, yp)) of lattice point (col, s), and the element table is QuadTable(N) |

## Left out

- Floating point: all coordinates are exact reals. `np.linspace` is H*k/N
  without rounding, and the `int(...)` casts of float subscripts in
  src/hypar.py are plain naturals.
- psi, tan(psi) and cos(psi)^2: `Ne` enters only through psi = pi/Ne. The
  dome and pyramid generators take tan(pi/Ne) and cos(pi/Ne)^2 as real
  parameters. The source applies no checks, so `Ne >= 3` is not required.
- The hypar laws get_z, get_K, get_xy, sym and rotate (src/hypar.py:9-38) use
  sin, cos, tan, arctan and sqrt. They are opaque fields of `Hypar.Laws`, so
  nothing is proved about what they compute. For example, sym is not shown to
  be an involution and K is not bounded.
- The hypar z_i comprehension (src/hypar.py:67) computes heights that are
  never used. It has no counterpart in the model.
- Pyramid.Generate, Dome.Generate: both require H != 0, because the height
  laws divide by H. N = 0 is allowed, as in the source, which then returns
  one node and no elements. The apex and rim lemmas assume N >= 1, since with
  N = 0 the apex and the rim are the same node.
- Winding order: the generators do not orient elements consistently. For
  N = 1 the first triangle (1, 3, 2) is clockwise in the plane, so no
  orientation is claimed.
- The GUI, messagebox errors, preview plots and spreadsheet export
  (umbrella.py, src/umbrella.py) are not part of this model. Neither are the
  commented-out plotting and export code of the three generators and the
  module-level defaults of dome.py.
- numpy arrays of floats holding integer ids are modelled as `array2<int>`
  tables. Returned arrays are allocated by the methods that fill them, as
  numpy allocates them.
