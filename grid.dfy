/** Geometry of the maze: directions, positions, the wall record of a cell,
    the undirected edges between neighbouring cells, and the properties a
    finished maze grid is expected to have. */
module Grid {

  datatype Dir = N | S | E | W

  datatype Pos = Pos(row: int, col: int)

  /** The cell one step from `p` in direction `d` (rows grow southwards,
      columns eastwards). */
  function Neighbor(p: Pos, d: Dir): Pos
  {
    match d
    case N => Pos(p.row - 1, p.col)
    case S => Pos(p.row + 1, p.col)
    case E => Pos(p.row, p.col + 1)
    case W => Pos(p.row, p.col - 1)
  }

  /** The direction back: it differs from `d` and lies on the same axis. */
  function Opposite(d: Dir): (o: Dir)
    ensures o != d
    ensures (d == N || d == S) <==> (o == N || o == S)
  {
    match d
    case N => S
    case S => N
    case E => W
    case W => E
  }

  /** Stepping in a direction and then in the opposite one returns to the
      start; a step always moves exactly one coordinate by one. */
  lemma StepBack(p: Pos, d: Dir)
    ensures Neighbor(Neighbor(p, d), Opposite(d)) == p
    ensures Opposite(Opposite(d)) == d && Opposite(d) != d
    ensures Neighbor(p, d) != p
    ensures (Neighbor(p, d).row == p.row && (Neighbor(p, d).col - p.col == 1 || p.col - Neighbor(p, d).col == 1))
         || (Neighbor(p, d).col == p.col && (Neighbor(p, d).row - p.row == 1 || p.row - Neighbor(p, d).row == 1))
  {
  }

  predicate InGrid(p: Pos, rows: int, cols: int)
  {
    0 <= p.row < rows && 0 <= p.col < cols
  }

  /** A cell of the grid: one flag per side, true while that wall stands,
      and the flag the generator uses to remember which cells it reached. */
  datatype Cell = Cell(n: bool, s: bool, e: bool, w: bool, visited: bool)

  /** A fresh cell: all four walls up, not visited. */
  const Closed := Cell(true, true, true, true, false)

  /** `cell[d]`. */
  function Wall(c: Cell, d: Dir): bool
  {
    match d
    case N => c.n
    case S => c.s
    case E => c.e
    case W => c.w
  }

  /** `cell[d] = false`: knocks down one wall and touches nothing else. */
  function ClearWall(c: Cell, d: Dir): (c': Cell)
    ensures !Wall(c', d)
    ensures forall d' :: d' != d ==> Wall(c', d') == Wall(c, d')
    ensures c'.visited == c.visited
  {
    match d
    case N => c.(n := false)
    case S => c.(s := false)
    case E => c.(e := false)
    case W => c.(w := false)
  }

  /** An undirected edge between two neighbouring cells, named after its
      upper (for a vertical step) or left (for a horizontal step) end. */
  datatype Edge = Down(top: Pos) | Right(left: Pos)

  /** The edge crossed when stepping from `p` in direction `d`. */
  function EdgeOf(p: Pos, d: Dir): Edge
  {
    match d
    case N => Down(Pos(p.row - 1, p.col))
    case S => Down(p)
    case E => Right(p)
    case W => Right(Pos(p.row, p.col - 1))
  }

  /** An edge is crossed from exactly two sides: from `p` towards `d`, and
      back from the neighbour towards the opposite direction. */
  lemma EdgeOfSides(p: Pos, d: Dir, x: Pos, d': Dir)
    ensures EdgeOf(x, d') == EdgeOf(p, d) <==>
              (x == p && d' == d) || (x == Neighbor(p, d) && d' == Opposite(d))
  {
  }

  /*** Properties of a grid of cells ***/

  /** Every wall on the outer border of the grid stands. */
  ghost predicate BoundaryIntact(g: array2<Cell>)
    reads g
  {
    forall r, c, d {:trigger Wall(g[r, c], d)} ::
      (0 <= r < g.Length0 && 0 <= c < g.Length1 && !InGrid(Neighbor(Pos(r, c), d), g.Length0, g.Length1))
      ==> Wall(g[r, c], d)
  }

  /** Seen from cell `(r, c)` and from its neighbour in direction `d`, the
      wall between them, when both are cells of the grid, is the same. */
  ghost predicate SidesAgree(g: array2<Cell>, r: int, c: int, d: Dir)
    reads g
  {
    (0 <= r < g.Length0 && 0 <= c < g.Length1 && InGrid(Neighbor(Pos(r, c), d), g.Length0, g.Length1))
    ==> Wall(g[r, c], d) == Wall(g[Neighbor(Pos(r, c), d).row, Neighbor(Pos(r, c), d).col], Opposite(d))
  }

  /** The two sides of every interior wall agree. */
  ghost predicate WallsSymmetric(g: array2<Cell>)
    reads g
  {
    forall r, c, d :: SidesAgree(g, r, c, d)
  }

  /** The open passages of the grid, each named once: by its upper end when
      the south wall of that end is down, by its left end when the east
      wall is down. */
  ghost function Passages(g: array2<Cell>): set<Edge>
    reads g
  {
    (set r, c | 0 <= r < g.Length0 - 1 && 0 <= c < g.Length1 && !g[r, c].s :: Down(Pos(r, c)))
    + (set r, c | 0 <= r < g.Length0 && 0 <= c < g.Length1 - 1 && !g[r, c].e :: Right(Pos(r, c)))
  }

  /** Walking the directions `ds` from `from` passes only through open
      walls, stays in the grid and ends at `to`. */
  ghost predicate Route(g: array2<Cell>, from: Pos, ds: seq<Dir>, to: Pos)
    reads g
    decreases |ds|
  {
    if ds == [] then from == to
    else
      && InGrid(from, g.Length0, g.Length1)
      && !Wall(g[from.row, from.col], ds[0])
      && Route(g, Neighbor(from, ds[0]), ds[1..], to)
  }

  ghost predicate Reachable(g: array2<Cell>, from: Pos, to: Pos)
    reads g
  {
    exists ds :: Route(g, from, ds, to)
  }

  /** A route can be extended by one more step through an open wall. */
  lemma {:induction false} RouteSnoc(g: array2<Cell>, from: Pos, ds: seq<Dir>, mid: Pos, d: Dir)
    requires Route(g, from, ds, mid)
    requires InGrid(mid, g.Length0, g.Length1) && !Wall(g[mid.row, mid.col], d)
    ensures Route(g, from, ds + [d], Neighbor(mid, d))
    decreases |ds|
  {
    if ds != [] {
      RouteSnoc(g, Neighbor(from, ds[0]), ds[1..], mid, d);
      assert (ds + [d])[1..] == ds[1..] + [d];
    }
  }

  /** Every position a route ends at lies in the grid, when the route
      starts in the grid and the border walls stand. */
  lemma {:induction false} RouteStaysInGrid(g: array2<Cell>, from: Pos, ds: seq<Dir>, to: Pos)
    requires BoundaryIntact(g) && InGrid(from, g.Length0, g.Length1)
    requires Route(g, from, ds, to)
    ensures InGrid(to, g.Length0, g.Length1)
    decreases |ds|
  {
    if ds != [] {
      RouteStaysInGrid(g, Neighbor(from, ds[0]), ds[1..], to);
    }
  }
}
