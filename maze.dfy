/** `generateMaze(rows, cols, seed)`: a grid of closed cells carved by a
    randomised depth-first search from the top-left cell.

    The generator's state is a class: the grid is an `array2` of wall
    records updated in place, and the random source is an `Rng.Lcg` whose
    state the shuffles advance. Three ghost fields record what the carve
    has done so far: the cells in the order it reached them, the edges it
    opened, and for every cell after the first the cell it was entered
    from. `Tree` says that this history forms a spanning tree of the
    reached cells; the final theorems about the grid follow from it. */
module MazeGen {
  import opened Grid
  import Rng

  /** How cell `order[k + 1]` was first entered: from `order[parent]`,
      stepping in direction `dir`. */
  datatype Link = Link(parent: nat, dir: Dir)

  ghost function Cells(rows: int, cols: int): set<Pos>
  {
    set r, c | 0 <= r < rows && 0 <= c < cols :: Pos(r, c)
  }

  /** `o` lists distinct cells of the grid in the order they were reached;
      every cell after the first was entered through edge `cv[k]` from a cell
      reached before it. */
  ghost predicate Tree(o: seq<Pos>, cv: seq<Edge>, lk: seq<Link>, rows: int, cols: int)
  {
    && |o| >= 1 && |cv| == |o| - 1 && |lk| == |o| - 1
    && (forall i, j :: 0 <= i < j < |o| ==> o[i] != o[j])
    && (forall i :: 0 <= i < |o| ==> InGrid(o[i], rows, cols))
    && (forall i, j :: 0 <= i < j < |cv| ==> cv[i] != cv[j])
    && (forall k {:trigger lk[k]} :: 0 <= k < |lk| ==>
          && lk[k].parent <= k
          && o[k + 1] == Neighbor(o[lk[k].parent], lk[k].dir)
          && cv[k] == EdgeOf(o[lk[k].parent], lk[k].dir))
  }

  /** A wall of the cell at `p` is down exactly when the neighbour on that
      side exists and the edge to it has been carved. */
  ghost predicate CellMatches(cell: Cell, p: Pos, cv: seq<Edge>, rows: int, cols: int)
  {
    && cell.n == Stands(p, N, cv, rows, cols)
    && cell.s == Stands(p, S, cv, rows, cols)
    && cell.e == Stands(p, E, cv, rows, cols)
    && cell.w == Stands(p, W, cv, rows, cols)
  }

  /** The wall of the cell at `p` towards `d` stands unless the neighbour
      there exists and the edge to it has been carved. */
  ghost predicate Stands(p: Pos, d: Dir, cv: seq<Edge>, rows: int, cols: int)
  {
    !(InGrid(Neighbor(p, d), rows, cols) && EdgeOf(p, d) in cv)
  }

  /** The `visited` flags of `g` mark exactly the cells of `o`. */
  ghost predicate FlagsMatch(g: array2<Cell>, o: seq<Pos>)
    reads g
  {
    forall r, c {:trigger g[r, c]} :: 0 <= r < g.Length0 && 0 <= c < g.Length1 ==>
      (g[r, c].visited <==> Pos(r, c) in o)
  }

  /** The wall flags of every cell of `g` agree with the edges in `cv`. */
  ghost predicate GridMatches(g: array2<Cell>, cv: seq<Edge>)
    reads g
  {
    forall r, c {:trigger g[r, c]} :: 0 <= r < g.Length0 && 0 <= c < g.Length1 ==>
      CellMatches(g[r, c], Pos(r, c), cv, g.Length0, g.Length1)
  }

  /** Every neighbour of `p` inside the grid has been reached. */
  ghost predicate Finished(p: Pos, o: seq<Pos>, rows: int, cols: int)
  {
    forall d :: InGrid(Neighbor(p, d), rows, cols) ==> Neighbor(p, d) in o
  }

  /*** The carve step: entering an unreached neighbour extends the tree ***/

  lemma TreeGrow(o: seq<Pos>, cv: seq<Edge>, lk: seq<Link>, rows: int, cols: int, i0: nat, d: Dir)
    requires Tree(o, cv, lk, rows, cols) && i0 < |o|
    requires InGrid(Neighbor(o[i0], d), rows, cols) && Neighbor(o[i0], d) !in o
    ensures Tree(o + [Neighbor(o[i0], d)], cv + [EdgeOf(o[i0], d)], lk + [Link(i0, d)], rows, cols)
  {
    var p := o[i0];
    forall k | 0 <= k < |cv|
      ensures cv[k] != EdgeOf(p, d)
    {
      EdgeOfSides(p, d, o[lk[k].parent], lk[k].dir);
    }
  }

  lemma CarveElsewhere(cell: Cell, x: Pos, cv: seq<Edge>, rows: int, cols: int, p: Pos, d: Dir)
    requires CellMatches(cell, x, cv, rows, cols)
    requires x != p && x != Neighbor(p, d)
    ensures CellMatches(cell, x, cv + [EdgeOf(p, d)], rows, cols)
  {
    forall d' ensures EdgeOf(x, d') != EdgeOf(p, d) {
      EdgeOfSides(p, d, x, d');
    }
  }

  lemma CarveHere(cell: Cell, p: Pos, cv: seq<Edge>, rows: int, cols: int, d: Dir)
    requires CellMatches(cell, p, cv, rows, cols)
    requires InGrid(Neighbor(p, d), rows, cols)
    ensures CellMatches(ClearWall(cell, d), p, cv + [EdgeOf(p, d)], rows, cols)
  {
    StepBack(p, d);
    forall d' | d' != d ensures EdgeOf(p, d') != EdgeOf(p, d) {
      EdgeOfSides(p, d, p, d');
    }
  }

  lemma CarveThere(cell: Cell, p: Pos, cv: seq<Edge>, rows: int, cols: int, d: Dir)
    requires CellMatches(cell, Neighbor(p, d), cv, rows, cols)
    requires InGrid(p, rows, cols)
    ensures CellMatches(ClearWall(cell, Opposite(d)), Neighbor(p, d), cv + [EdgeOf(p, d)], rows, cols)
  {
    var q := Neighbor(p, d);
    StepBack(p, d);
    EdgeOfSides(p, d, q, Opposite(d));
    forall d' | d' != Opposite(d) ensures EdgeOf(q, d') != EdgeOf(p, d) {
      EdgeOfSides(p, d, q, d');
    }
  }

  /** The cell at `x` after the wall between `p` and its neighbour in
      direction `d` has been knocked down on both sides. */
  function AfterCarve(cell: Cell, x: Pos, p: Pos, d: Dir): (c': Cell)
    ensures c'.visited == cell.visited
  {
    if x == p then ClearWall(cell, d)
    else if x == Neighbor(p, d) then ClearWall(cell, Opposite(d))
    else cell
  }

  lemma CarveKeepsMatch(cell: Cell, x: Pos, cv: seq<Edge>, rows: int, cols: int, p: Pos, d: Dir)
    requires CellMatches(cell, x, cv, rows, cols)
    requires InGrid(p, rows, cols) && InGrid(Neighbor(p, d), rows, cols)
    ensures CellMatches(AfterCarve(cell, x, p, d), x, cv + [EdgeOf(p, d)], rows, cols)
  {
    StepBack(p, d);
    if x == p {
      CarveHere(cell, p, cv, rows, cols, d);
    } else if x == Neighbor(p, d) {
      CarveThere(cell, p, cv, rows, cols, d);
    } else {
      CarveElsewhere(cell, x, cv, rows, cols, p, d);
    }
  }

  /*** shuffleDirs ***/

  function Swap(s: seq<Dir>, i: nat, j: nat): (t: seq<Dir>)
    requires i < |s| && j < |s|
    ensures |t| == |s|
  {
    s[i := s[j]][j := s[i]]
  }

  /** A swap only reorders. */
  lemma SwapPermutes(s: seq<Dir>, i: nat, j: nat)
    requires i < |s| && j < |s|
    ensures multiset(Swap(s, i, j)) == multiset(s)
  {
  }

  /** The index `randInt(rng, 0, i)` returns when the generator is in
      state `st` before the draw. */
  function Pick(st: nat, i: nat): (j: nat)
    ensures j <= i
  {
    Rng.Scale(Rng.NextState(st), 0, i)
  }

  /** The Fisher-Yates pass of `shuffleDirs` over the indices `i`, `i - 1`,
      ..., 1 of `s`, when the generator is in state `st` before it. */
  function Shuffled(s: seq<Dir>, i: nat, st: nat): (t: seq<Dir>)
    requires i < |s|
    ensures |t| == |s|
    decreases i
  {
    if i == 0 then s
    else Shuffled(Swap(s, i, Pick(st, i)), i - 1, Rng.NextState(st))
  }

  /** One swap of the pass and the rest of it. */
  lemma ShuffleStep(s: seq<Dir>, i: nat, st: nat)
    requires 0 < i < |s|
    ensures Shuffled(s, i, st) == Shuffled(Swap(s, i, Pick(st, i)), i - 1, Rng.NextState(st))
  {
  }

  /** The whole pass, from the last index down. */
  function FisherYates(s: seq<Dir>, st: nat): (t: seq<Dir>)
    ensures |t| == |s|
  {
    if |s| == 0 then s else Shuffled(s, |s| - 1, st)
  }

  /** The number of draws the pass takes: one per index from the last
      down to 1. */
  function ShuffleDraws(n: nat): nat
  {
    if n == 0 then 0 else n - 1
  }

  /** The pass only reorders: its result is a permutation of its input. */
  lemma {:induction false} ShufflePermutes(s: seq<Dir>, i: nat, st: nat)
    requires i < |s|
    ensures |Shuffled(s, i, st)| == |s|
    ensures multiset(Shuffled(s, i, st)) == multiset(s)
    decreases i
  {
    if i > 0 {
      SwapPermutes(s, i, Pick(st, i));
      ShufflePermutes(Swap(s, i, Pick(st, i)), i - 1, Rng.NextState(st));
    }
  }

  /** Shuffling the four directions yields each of them exactly once. */
  lemma ShuffleOfFour(st: nat)
    ensures |FisherYates([N, S, E, W], st)| == 4
    ensures multiset(FisherYates([N, S, E, W], st)) == multiset{N, S, E, W}
    ensures forall d :: d in FisherYates([N, S, E, W], st)
  {
    var s := [N, S, E, W];
    ShufflePermutes(s, 3, st);
    EveryDirection(FisherYates(s, st));
  }

  /** A reordering of the four directions contains each of them. */
  lemma EveryDirection(t: seq<Dir>)
    requires multiset(t) == multiset{N, S, E, W}
    ensures forall d :: d in t
  {
    forall d ensures d in t {
      assert multiset(t)[d] == 1 by {
        match d
        case N => case S => case E => case W =>
      }
    }
  }

  /*** The carve as a function of its inputs ***/

  /** The history of a carve in value form: the cells in the order they
      were reached, the edges opened, and the state of the generator. */
  datatype Carve = Carve(order: seq<Pos>, carved: seq<Edge>, state: nat)

  /** `visit(r, c)` on the carve `h`, when the entry edge of `p` is
      already among `h.carved`: `p` joins the reached cells, the four
      directions are shuffled with three draws, and each is tried in the
      shuffled order. `fuel` bounds the depth of the recursion; the carve
      never needs more than one level per cell of the grid. */
  ghost function VisitFrom(rows: int, cols: int, h: Carve, p: Pos, fuel: nat): Carve
    decreases fuel, 7
  {
    if fuel == 0 then h
    else
      var dirs := FisherYates([N, S, E, W], h.state);
      TryAll(rows, cols, Carve(h.order + [p], h.carved, Rng.Iterate(h.state, ShuffleDraws(|dirs|))), p, dirs, 0, fuel)
  }

  /** The loop `for (let d of dirs)` of `visit` for the cell `p`, from the
      `k`-th of the directions `dirs` on. */
  ghost function TryAll(rows: int, cols: int, h: Carve, p: Pos, dirs: seq<Dir>, k: nat, fuel: nat): Carve
    requires k <= |dirs| && fuel > 0
    decreases fuel, |dirs| - k + 2
  {
    if k == |dirs| then h
    else TryAll(rows, cols, TryStep(rows, cols, h, p, dirs[k], fuel), p, dirs, k + 1, fuel)
  }

  /** One pass of that loop: an unvisited neighbour towards `d` inside the
      grid is entered through a newly opened edge and visited; otherwise
      the carve is left as it is. */
  ghost function TryStep(rows: int, cols: int, h: Carve, p: Pos, d: Dir, fuel: nat): Carve
    requires fuel > 0
    decreases fuel, 1
  {
    var q := Neighbor(p, d);
    if InGrid(q, rows, cols) && q !in h.order then
      VisitFrom(rows, cols, Carve(h.order, h.carved + [EdgeOf(p, d)], h.state), q, fuel - 1)
    else h
  }

  /** With fuel left, `visit` marks the cell, shuffles and runs its loop. */
  lemma VisitUnfolds(rows: int, cols: int, h: Carve, p: Pos, fuel: nat)
    requires fuel > 0
    ensures VisitFrom(rows, cols, h, p, fuel)
         == TryAll(rows, cols, Carve(h.order + [p], h.carved, Rng.Iterate(h.state, ShuffleDraws(4))),
                   p, FisherYates([N, S, E, W], h.state), 0, fuel)
  {
  }

  /** One pass of the loop and the rest of it. */
  lemma TryAllStep(rows: int, cols: int, h: Carve, p: Pos, dirs: seq<Dir>, k: nat, fuel: nat)
    requires k < |dirs| && fuel > 0
    ensures TryAll(rows, cols, h, p, dirs, k, fuel)
         == TryAll(rows, cols, TryStep(rows, cols, h, p, dirs[k], fuel), p, dirs, k + 1, fuel)
  {
  }

  /** The whole carve of `generateMaze(rows, cols, seed)`: `visit(0, 0)`
      on a fresh grid with the generator seeded by `seed >>> 0`. */
  ghost function CarveOf(rows: int, cols: int, seed: int): Carve
    requires rows >= 1 && cols >= 1
  {
    VisitFrom(rows, cols, Carve([], [], Rng.ToUint32(seed)), Pos(0, 0), rows * cols)
  }

  /** The cell at `p` of the grid `generateMaze(rows, cols, seed)`
      returns: visited, and with a wall towards each side unless the carve
      opened the edge there. */
  ghost function MazeCell(rows: int, cols: int, seed: int, p: Pos): Cell
    requires rows >= 1 && cols >= 1
  {
    var cv := CarveOf(rows, cols, seed).carved;
    Cell(Stands(p, N, cv, rows, cols), Stands(p, S, cv, rows, cols),
         Stands(p, E, cv, rows, cols), Stands(p, W, cv, rows, cols), true)
  }

  /** `g` is the grid `generateMaze(g.length, g[0].length, seed)` returns. */
  ghost predicate MazeOf(g: array2<Cell>, seed: int)
    reads g
  {
    && g.Length0 >= 1 && g.Length1 >= 1
    && forall r, c {:trigger MazeCell(g.Length0, g.Length1, seed, Pos(r, c))} ::
         0 <= r < g.Length0 && 0 <= c < g.Length1 ==>
           g[r, c] == MazeCell(g.Length0, g.Length1, seed, Pos(r, c))
  }

  /*** The generator ***/

  class Generator {
    const rows: int
    const cols: int
    const grid: array2<Cell>
    /** The `LCG(seed)` object local to one `generateMaze` call. */
    const rng: Rng.Lcg
    /** The cells in the order `visit` reached them. */
    ghost var order: seq<Pos>
    /** The edges opened so far, in the order they were opened. */
    ghost var carved: seq<Edge>
    /** `links[k]` tells how `order[k + 1]` was entered. */
    ghost var links: seq<Link>

    /** The carve so far in value form. */
    ghost function History(): Carve
      reads this, rng
    {
      Carve(order, carved, rng.state)
    }

    ghost predicate Shape()
      reads this
    {
      rows >= 1 && cols >= 1 && grid.Length0 == rows && grid.Length1 == cols
    }

    /** The set-up part of `generateMaze`: a fresh random source and a
        `rows` by `cols` grid whose cells have all walls up and are not
        visited. */
    constructor (rows: int, cols: int, seed: int)
      requires rows >= 1 && cols >= 1
      ensures this.rows == rows && this.cols == cols && Shape()
      ensures fresh(grid) && fresh(rng)
      ensures rng.Valid() && rng.origin == Rng.ToUint32(seed) && rng.draws == 0
      ensures forall r, c :: 0 <= r < rows && 0 <= c < cols ==> grid[r, c] == Closed
      ensures order == [] && carved == [] && links == []
      ensures FlagsMatch(grid, order) && GridMatches(grid, carved)
    {
      this.rows := rows;
      this.cols := cols;
      var g := new Cell[rows, cols];
      for r := 0 to rows
        invariant forall i, j :: 0 <= i < r && 0 <= j < cols ==> g[i, j] == Closed
      {
        for c := 0 to cols
          invariant forall i, j :: 0 <= i < r && 0 <= j < cols ==> g[i, j] == Closed
          invariant forall j :: 0 <= j < c ==> g[r, j] == Closed
        {
          g[r, c] := Closed;
        }
      }
      grid := g;
      rng := new Rng.Lcg(seed);
      order, carved, links := [], [], [];
      new;
    }

    /** `shuffleDirs(dirs)`: for `i` from the last index down to 1, swap
        `dirs[i]` with `dirs[randInt(rng, 0, i)]`. */
    method ShuffleDirs(dirs: array<Dir>)
      requires rng.Valid()
      modifies dirs, rng
      ensures rng.Valid() && rng.draws == old(rng.draws) + ShuffleDraws(dirs.Length)
      ensures rng.state == Rng.Iterate(old(rng.state), ShuffleDraws(dirs.Length))
      ensures dirs[..] == FisherYates(old(dirs[..]), old(rng.state))
    {
      var i := dirs.Length - 1;
      while i > 0
        invariant -1 <= i < dirs.Length
        invariant dirs.Length == 0 <==> i == -1
        invariant rng.Valid() && rng.draws == old(rng.draws) + (dirs.Length - 1 - i)
        invariant i >= 0 ==> Shuffled(dirs[..], i, rng.state) == FisherYates(old(dirs[..]), old(rng.state))
        invariant i == -1 ==> dirs[..] == old(dirs[..])
      {
        ghost var before, st := dirs[..], rng.state;
        var j := Rng.RandInt(rng, 0, i);
        assert j == Pick(st, i);
        dirs[i], dirs[j] := dirs[j], dirs[i];
        assert dirs[..] == Swap(before, i, j);
        ShuffleStep(before, i, st);
        i := i - 1;
      }
      Rng.IterateAdd(rng.origin, old(rng.draws), ShuffleDraws(dirs.Length));
    }

    /** `grid[r][c][d] = false; grid[nr][nc][opposite(d)] = false;`: knock down the wall between `p` and its
        neighbour in direction `d` on both sides. */
    method OpenPassage(p: Pos, d: Dir)
      requires Shape() && InGrid(p, rows, cols) && InGrid(Neighbor(p, d), rows, cols)
      requires GridMatches(grid, carved)
      modifies grid, this`carved
      ensures carved == old(carved) + [EdgeOf(p, d)]
      ensures GridMatches(grid, carved)
      ensures forall r, c :: 0 <= r < rows && 0 <= c < cols ==> grid[r, c].visited == old(grid[r, c].visited)
    {
      var q := Neighbor(p, d);
      grid[p.row, p.col] := ClearWall(grid[p.row, p.col], d);
      grid[q.row, q.col] := ClearWall(grid[q.row, q.col], Opposite(d));
      StepBack(p, d);
      carved := carved + [EdgeOf(p, d)];
      forall r, c {:trigger grid[r, c]} | 0 <= r < rows && 0 <= c < cols
        ensures grid[r, c].visited == old(grid[r, c].visited)
        ensures CellMatches(grid[r, c], Pos(r, c), carved, rows, cols)
      {
        assert grid[r, c] == AfterCarve(old(grid[r, c]), Pos(r, c), p, d);
        CarveKeepsMatch(old(grid[r, c]), Pos(r, c), old(carved), rows, cols, p, d);
      }
    }

    /** What holds between two steps of the carve: the history is a tree,
        the flags mark its cells and the walls match its edges. */
    ghost predicate Carving()
      reads this, grid, rng
    {
      && Shape() && rng.Valid()
      && Tree(order, carved, links, rows, cols)
      && FlagsMatch(grid, order) && GridMatches(grid, carved)
    }

    /** `visit(r, c)`: mark the cell, shuffle the four directions, and try
        each of them in turn.

        On entry the edge by which `p` is entered has already been carved,
        so the tree described by the ghost fields includes `p`. On exit the
        cells reached by this call follow the ones reached before, `p`
        first, each visit took three draws, and all neighbours of the new
        cells have been reached. */
    method Visit(p: Pos, ghost fuel: nat)
      requires Shape() && rng.Valid() && fuel >= rows * cols - |order|
      requires InGrid(p, rows, cols) && p !in order
      requires Tree(order + [p], carved, links, rows, cols)
      requires FlagsMatch(grid, order) && GridMatches(grid, carved)
      modifies this, grid, rng
      ensures Carving()
      ensures rng.draws == old(rng.draws) + 3 * (|order| - |old(order)|)
      ensures old(order) < order && order[|old(order)|] == p
      ensures forall x :: x in old(order) ==> x in order
      ensures forall k :: |old(order)| <= k < |order| ==> Finished(order[k], order, rows, cols)
      ensures History() == VisitFrom(rows, cols, old(History()), p, fuel)
      decreases rows * cols - |order|, 1
    {
      TreeFits(order + [p], carved, links, rows, cols);
      ghost var h := History();
      grid[p.row, p.col] := grid[p.row, p.col].(visited := true);
      Mark(p);
      var dirs := Directions();
      VisitUnfolds(rows, cols, h, p, fuel);
      ExploreAll(p, dirs, fuel);
    }

    /** The loop `for (let d of dirs)` of `visit(r, c)`, entered just after
        `p` was reached: every neighbour of `p` in the grid ends up
        reached, and so do those of every cell reached on the way. */
    method ExploreAll(p: Pos, dirs: array<Dir>, ghost fuel: nat)
      requires Carving() && |order| > 0 && order[|order| - 1] == p && 0 < fuel && rows * cols - |order| < fuel
      requires dirs.Length == 4 && forall d :: d in dirs[..]
      modifies this, grid, rng
      ensures Carving()
      ensures rng.draws == old(rng.draws) + 3 * (|order| - |old(order)|)
      ensures old(order) <= order
      ensures forall x :: x in old(order) ==> x in order
      ensures forall k :: |old(order)| - 1 <= k < |order| ==> Finished(order[k], order, rows, cols)
      ensures History() == TryAll(rows, cols, old(History()), p, dirs[..], 0, fuel)
      decreases rows * cols - |order|, 3
    {
      ghost var i0 := |order| - 1;
      for i := 0 to 4
        invariant Carving()
        invariant rng.draws == old(rng.draws) + 3 * (|order| - |old(order)|)
        invariant old(order) <= order
        invariant forall x :: x in old(order) ==> x in order
        invariant Covered(p, dirs[..i], order, rows, cols)
        invariant forall k :: i0 < k < |order| ==> Finished(order[k], order, rows, cols)
        invariant TryAll(rows, cols, History(), p, dirs[..], i, fuel) == TryAll(rows, cols, old(History()), p, dirs[..], 0, fuel)
      {
        ghost var before, h := order, History();
        TreeFits(order, carved, links, rows, cols);
        Explore(p, i0, dirs[i], fuel);
        TryAllStep(rows, cols, h, p, dirs[..], i, fuel);
        forall k | i0 < k < |before| ensures Finished(order[k], order, rows, cols) {
          FinishedGrows(before[k], before, order, rows, cols);
        }
        assert dirs[..i + 1] == dirs[..i] + [dirs[i]];
        CoveredGrows(p, dirs[..i], dirs[i], before, order, rows, cols);
      }
      assert dirs[..4] == dirs[..];
      CoveredAll(p, dirs[..], order, rows, cols);
    }

    /** `let dirs = ["N","S","E","W"]; shuffleDirs(dirs);`: the four
        directions in the order of one Fisher-Yates pass, three draws. */
    method Directions() returns (dirs: array<Dir>)
      requires rng.Valid()
      modifies rng
      ensures fresh(dirs) && dirs.Length == 4
      ensures rng.Valid() && rng.draws == old(rng.draws) + 3
      ensures rng.state == Rng.Iterate(old(rng.state), ShuffleDraws(dirs.Length))
      ensures dirs[..] == FisherYates([N, S, E, W], old(rng.state))
      ensures forall d :: d in dirs[..]
    {
      dirs := new Dir[4][N, S, E, W];
      assert dirs[..] == [N, S, E, W];
      ghost var st := rng.state;
      ShuffleDirs(dirs);
      ShuffleOfFour(st);
    }

    /** The history's side of `grid[r][c].visited = true`: the cell just
        marked joins the reached cells. */
    ghost method Mark(p: Pos)
      requires Shape() && InGrid(p, rows, cols) && p !in order
      requires grid[p.row, p.col].visited
      requires forall r, c {:trigger grid[r, c]} :: 0 <= r < rows && 0 <= c < cols && Pos(r, c) != p ==>
                 (grid[r, c].visited <==> Pos(r, c) in order)
      requires GridMatches(grid, carved)
      modifies this`order
      ensures order == old(order) + [p]
      ensures FlagsMatch(grid, order)
    {
      order := order + [p];
      forall r, c {:trigger grid[r, c]} | 0 <= r < rows && 0 <= c < cols
        ensures grid[r, c].visited <==> Pos(r, c) in order
      {
        assert Pos(r, c) in order <==> Pos(r, c) in old(order) || Pos(r, c) == p;
      }
    }

    /** One pass of the loop in `visit`: when the neighbour of `p` in
        direction `d` lies in the grid and has not been visited, open the
        wall between them on both sides and visit the neighbour. */
    method Explore(p: Pos, ghost i0: nat, d: Dir, ghost fuel: nat)
      requires Carving() && i0 < |order| && order[i0] == p && 0 < fuel && rows * cols - |order| < fuel
      modifies this, grid, rng
      ensures Carving()
      ensures rng.draws == old(rng.draws) + 3 * (|order| - |old(order)|)
      ensures old(order) <= order
      ensures forall x :: x in old(order) ==> x in order
      ensures InGrid(Neighbor(p, d), rows, cols) ==> Neighbor(p, d) in order
      ensures forall k :: |old(order)| <= k < |order| ==> Finished(order[k], order, rows, cols)
      ensures History() == TryStep(rows, cols, old(History()), p, d, fuel)
      decreases rows * cols - |order|, 2
    {
      var q := Neighbor(p, d);
      if 0 <= q.row < rows && 0 <= q.col < cols && !grid[q.row, q.col].visited {
        TreeGrow(order, carved, links, rows, cols, i0, d);
        OpenPassage(p, d);
        links := links + [Link(i0, d)];
        Visit(q, fuel - 1);
      }
    }
  }

  /** A tree of distinct grid cells has at most as many cells as the grid. */
  lemma TreeFits(o: seq<Pos>, cv: seq<Edge>, lk: seq<Link>, rows: int, cols: int)
    requires Tree(o, cv, lk, rows, cols)
    ensures |o| <= rows * cols
  {
    DistinctCard(o);
    assert (set x | x in o) <= Cells(rows, cols) by {
      forall x | x in o ensures x in Cells(rows, cols) {
        assert x == Pos(x.row, x.col);
      }
    }
    if rows >= 0 && cols >= 0 {
      CellsCard(rows, cols);
    }
    SubsetCard((set x | x in o), Cells(rows, cols));
  }

  lemma {:induction false} SubsetCard<T>(a: set<T>, b: set<T>)
    requires a <= b
    ensures |a| <= |b|
    decreases |b|
  {
    if b != {} {
      var y :| y in b;
      SubsetCard(a - {y}, b - {y});
    }
  }

  /** The neighbours of `p` in the directions `ds` that lie in the grid
      have been reached. */
  ghost predicate Covered(p: Pos, ds: seq<Dir>, o: seq<Pos>, rows: int, cols: int)
  {
    forall d :: d in ds ==> InGrid(Neighbor(p, d), rows, cols) ==> Neighbor(p, d) in o
  }

  lemma CoveredGrows(p: Pos, ds: seq<Dir>, d: Dir, o: seq<Pos>, o': seq<Pos>, rows: int, cols: int)
    requires Covered(p, ds, o, rows, cols)
    requires forall y :: y in o ==> y in o'
    requires InGrid(Neighbor(p, d), rows, cols) ==> Neighbor(p, d) in o'
    ensures Covered(p, ds + [d], o', rows, cols)
  {
  }

  lemma CoveredAll(p: Pos, ds: seq<Dir>, o: seq<Pos>, rows: int, cols: int)
    requires Covered(p, ds, o, rows, cols)
    requires forall d :: d in ds
    ensures Finished(p, o, rows, cols)
  {
  }

  /** Reaching more cells keeps a cell's neighbours reached. */
  lemma FinishedGrows(x: Pos, o: seq<Pos>, o': seq<Pos>, rows: int, cols: int)
    requires Finished(x, o, rows, cols)
    requires forall y :: y in o ==> y in o'
    ensures Finished(x, o', rows, cols)
  {
  }

  /*** From the carve's history to properties of the grid ***/

  /** A set of reached cells that contains the top-left cell and every
      in-grid neighbour of each of its cells covers the whole grid. */
  lemma ClosedCoversGrid(o: seq<Pos>, rows: int, cols: int)
    requires Pos(0, 0) in o
    requires forall x :: x in o ==> Finished(x, o, rows, cols)
    ensures forall r, c :: 0 <= r < rows && 0 <= c < cols ==> Pos(r, c) in o
  {
    forall r, c | 0 <= r < rows && 0 <= c < cols ensures Pos(r, c) in o {
      ColumnReached(o, rows, cols, r);
      RowReached(o, rows, cols, r, c);
    }
  }

  lemma {:induction false} ColumnReached(o: seq<Pos>, rows: int, cols: int, r: int)
    requires Pos(0, 0) in o
    requires forall x :: x in o ==> Finished(x, o, rows, cols)
    requires 0 <= r < rows && cols >= 1
    ensures Pos(r, 0) in o
    decreases r
  {
    if r > 0 {
      ColumnReached(o, rows, cols, r - 1);
      assert Neighbor(Pos(r - 1, 0), S) == Pos(r, 0);
    }
  }

  lemma {:induction false} RowReached(o: seq<Pos>, rows: int, cols: int, r: int, c: int)
    requires Pos(r, 0) in o
    requires forall x :: x in o ==> Finished(x, o, rows, cols)
    requires 0 <= r < rows && 0 <= c < cols
    ensures Pos(r, c) in o
    decreases c
  {
    if c > 0 {
      RowReached(o, rows, cols, r, c - 1);
      assert Neighbor(Pos(r, c - 1), E) == Pos(r, c);
    }
  }

  /** A sequence without repetitions has as many distinct elements as it
      has elements. */
  lemma {:induction false} DistinctCard<T>(s: seq<T>)
    requires forall i, j :: 0 <= i < j < |s| ==> s[i] != s[j]
    ensures |set x | x in s| == |s|
  {
    if s != [] {
      var t := s[..|s| - 1];
      DistinctCard(t);
      assert (set x | x in s) == (set x | x in t) + {s[|s| - 1]};
    }
  }

  ghost function RowCells(r: int, cols: int): set<Pos>
  {
    set c | 0 <= c < cols :: Pos(r, c)
  }

  lemma {:induction false} RowCellsCard(r: int, cols: nat)
    ensures |RowCells(r, cols)| == cols
  {
    if cols > 0 {
      RowCellsCard(r, cols - 1);
      assert RowCells(r, cols) == RowCells(r, cols - 1) + {Pos(r, cols - 1)};
    }
  }

  /** The grid has `rows * cols` cells. */
  lemma {:induction false} CellsCard(rows: nat, cols: nat)
    ensures |Cells(rows, cols)| == rows * cols
  {
    if rows > 0 {
      CellsCard(rows - 1, cols);
      RowCellsCard(rows - 1, cols);
      var above, last := Cells(rows - 1, cols), RowCells(rows - 1, cols);
      assert Cells(rows, cols) == above + last by {
        forall x | x in Cells(rows, cols) ensures x in above || x in last {
          if x.row < rows - 1 {
            assert x == Pos(x.row, x.col);
          }
        }
      }
      assert above * last == {} by {
        forall x | x in last ensures x !in above {}
      }
      assert rows * cols == (rows - 1) * cols + cols;
    }
  }

  /** Border walls stand and interior walls agree on both sides in a grid
      whose cells match a set of carved edges. */
  lemma MatchedGridIsSound(g: array2<Cell>, cv: seq<Edge>)
    requires GridMatches(g, cv)
    ensures BoundaryIntact(g) && WallsSymmetric(g)
  {
    forall r, c, d
      ensures SidesAgree(g, r, c, d)
    {
      if 0 <= r < g.Length0 && 0 <= c < g.Length1 && InGrid(Neighbor(Pos(r, c), d), g.Length0, g.Length1) {
        var p, q := Pos(r, c), Neighbor(Pos(r, c), d);
        StepBack(p, d);
        EdgeOfSides(p, d, q, Opposite(d));
        assert CellMatches(g[q.row, q.col], q, cv, g.Length0, g.Length1);
      }
    }
  }

  /** In such a grid the open passages are exactly the carved edges, when
      every carved edge joins two cells of the grid. */
  lemma PassagesAreCarved(g: array2<Cell>, o: seq<Pos>, cv: seq<Edge>, lk: seq<Link>)
    requires Tree(o, cv, lk, g.Length0, g.Length1)
    requires GridMatches(g, cv)
    ensures Passages(g) == set e | e in cv
  {
    forall e | e in Passages(g) ensures e in cv {
      OpenIsCarved(g, cv, e);
    }
    forall k | 0 <= k < |cv| ensures cv[k] in Passages(g) {
      var a, d := o[lk[k].parent], lk[k].dir;
      assert Neighbor(a, d) == o[k + 1];
      CarvedIsOpen(g, cv, a, d);
    }
  }

  /** An open passage of a matching grid is a carved edge. */
  lemma OpenIsCarved(g: array2<Cell>, cv: seq<Edge>, e: Edge)
    requires GridMatches(g, cv) && e in Passages(g)
    ensures e in cv
  {
    match e
    case Down(t) =>
      assert CellMatches(g[t.row, t.col], t, cv, g.Length0, g.Length1);
    case Right(t) =>
      assert CellMatches(g[t.row, t.col], t, cv, g.Length0, g.Length1);
  }

  /** A carved edge between two cells of a matching grid is an open
      passage. */
  lemma CarvedIsOpen(g: array2<Cell>, cv: seq<Edge>, a: Pos, d: Dir)
    requires GridMatches(g, cv) && EdgeOf(a, d) in cv
    requires InGrid(a, g.Length0, g.Length1) && InGrid(Neighbor(a, d), g.Length0, g.Length1)
    ensures EdgeOf(a, d) in Passages(g)
  {
    var b := Neighbor(a, d);
    match d
    case S => assert CellMatches(g[a.row, a.col], a, cv, g.Length0, g.Length1);
    case E => assert CellMatches(g[a.row, a.col], a, cv, g.Length0, g.Length1);
    case N =>
      assert CellMatches(g[b.row, b.col], b, cv, g.Length0, g.Length1);
      assert EdgeOf(b, S) == EdgeOf(a, d);
    case W =>
      assert CellMatches(g[b.row, b.col], b, cv, g.Length0, g.Length1);
      assert EdgeOf(b, E) == EdgeOf(a, d);
  }

  /** Every cell of the tree can be reached from its first cell through
      open walls. */
  lemma {:induction false} TreeReachable(g: array2<Cell>, o: seq<Pos>, cv: seq<Edge>, lk: seq<Link>, k: nat)
    requires Tree(o, cv, lk, g.Length0, g.Length1) && k < |o|
    requires GridMatches(g, cv)
    ensures Reachable(g, o[0], o[k])
    decreases k
  {
    if k == 0 {
      assert Route(g, o[0], [], o[0]);
    } else {
      var link := lk[k - 1];
      var mid := o[link.parent];
      TreeReachable(g, o, cv, lk, link.parent);
      var ds :| Route(g, o[0], ds, mid);
      assert CellMatches(g[mid.row, mid.col], mid, cv, g.Length0, g.Length1);
      assert cv[k - 1] == EdgeOf(mid, link.dir);
      RouteSnoc(g, o[0], ds, mid, link.dir);
    }
  }

  /** What `generateMaze` promises of its grid, with `o` the cells in the
      order the carve reached them: they are exactly the grid's cells, each
      once and the top-left one first, and all of them are marked visited;
      walls agree on both sides and the border is closed; there are
      exactly `rows * cols - 1` open passages;
      and every cell can be reached from the top-left cell. A connected
      graph on `rows * cols` cells with `rows * cols - 1` edges is a
      spanning tree. */
  ghost predicate PerfectMaze(g: array2<Cell>, o: seq<Pos>)
    reads g
  {
    && (forall r, c :: 0 <= r < g.Length0 && 0 <= c < g.Length1 ==> g[r, c].visited)
    && |o| == g.Length0 * g.Length1 && |o| > 0 && o[0] == Pos(0, 0)
    && (forall i, j :: 0 <= i < j < |o| ==> o[i] != o[j])
    && (forall x :: x in o <==> InGrid(x, g.Length0, g.Length1))
    && BoundaryIntact(g) && WallsSymmetric(g)
    && |Passages(g)| == g.Length0 * g.Length1 - 1
    && (forall x :: InGrid(x, g.Length0, g.Length1) ==> Reachable(g, Pos(0, 0), x))
  }

  /** A finished carve from the top-left cell yields a perfect maze. */
  lemma CarveMakesPerfectMaze(g: array2<Cell>, o: seq<Pos>, cv: seq<Edge>, lk: seq<Link>)
    requires Tree(o, cv, lk, g.Length0, g.Length1) && o[0] == Pos(0, 0)
    requires GridMatches(g, cv) && FlagsMatch(g, o)
    requires forall k :: 0 <= k < |o| ==> Finished(o[k], o, g.Length0, g.Length1)
    ensures PerfectMaze(g, o)
  {
    CarveCoversGrid(o, cv, lk, g.Length0, g.Length1);
    MatchedGridIsSound(g, cv);
    CarveCountsPassages(g, o, cv, lk);
    CarveConnects(g, o, cv, lk);
    CarveMarksAll(g, o);
  }

  /** Every cell of the grid of a finished carve is marked visited. */
  lemma CarveMarksAll(g: array2<Cell>, o: seq<Pos>)
    requires FlagsMatch(g, o)
    requires forall x :: x in o <==> InGrid(x, g.Length0, g.Length1)
    ensures forall r, c :: 0 <= r < g.Length0 && 0 <= c < g.Length1 ==> g[r, c].visited
  {
    forall r, c | 0 <= r < g.Length0 && 0 <= c < g.Length1 ensures g[r, c].visited {
      assert Pos(r, c) in o;
    }
  }

  /** The carve reaches every cell of the grid, each once. */
  lemma CarveCoversGrid(o: seq<Pos>, cv: seq<Edge>, lk: seq<Link>, rows: int, cols: int)
    requires Tree(o, cv, lk, rows, cols) && o[0] == Pos(0, 0)
    requires forall k :: 0 <= k < |o| ==> Finished(o[k], o, rows, cols)
    ensures forall x :: x in o <==> InGrid(x, rows, cols)
    ensures |o| == rows * cols
  {
    ClosedCoversGrid(o, rows, cols);
    assert (set x | x in o) == Cells(rows, cols);
    DistinctCard(o);
    if rows >= 0 && cols >= 0 {
      CellsCard(rows, cols);
    }
  }

  /** The grid of a finished carve has one open passage fewer than it has
      cells. */
  lemma CarveCountsPassages(g: array2<Cell>, o: seq<Pos>, cv: seq<Edge>, lk: seq<Link>)
    requires Tree(o, cv, lk, g.Length0, g.Length1)
    requires GridMatches(g, cv)
    requires |o| == g.Length0 * g.Length1
    ensures |Passages(g)| == g.Length0 * g.Length1 - 1
  {
    PassagesAreCarved(g, o, cv, lk);
    DistinctCard(cv);
  }

  /** Every cell of the grid of a finished carve can be reached from the
      top-left cell. */
  lemma CarveConnects(g: array2<Cell>, o: seq<Pos>, cv: seq<Edge>, lk: seq<Link>)
    requires Tree(o, cv, lk, g.Length0, g.Length1) && o[0] == Pos(0, 0)
    requires GridMatches(g, cv)
    requires forall x :: x in o <==> InGrid(x, g.Length0, g.Length1)
    ensures forall x :: InGrid(x, g.Length0, g.Length1) ==> Reachable(g, Pos(0, 0), x)
  {
    forall x | InGrid(x, g.Length0, g.Length1) ensures Reachable(g, Pos(0, 0), x) {
      var k :| 0 <= k < |o| && o[k] == x;
      TreeReachable(g, o, cv, lk, k);
    }
  }

  /** A grid whose cells are all visited and whose walls match the edges
      of the carve for `seed` is the grid `generateMaze` returns for it. */
  lemma MatchedGridIsMaze(g: array2<Cell>, cv: seq<Edge>, seed: int)
    requires g.Length0 >= 1 && g.Length1 >= 1
    requires cv == CarveOf(g.Length0, g.Length1, seed).carved
    requires GridMatches(g, cv)
    requires forall r, c :: 0 <= r < g.Length0 && 0 <= c < g.Length1 ==> g[r, c].visited
    ensures MazeOf(g, seed)
  {
    forall r, c | 0 <= r < g.Length0 && 0 <= c < g.Length1
      ensures g[r, c] == MazeCell(g.Length0, g.Length1, seed, Pos(r, c))
    {
      assert CellMatches(g[r, c], Pos(r, c), cv, g.Length0, g.Length1);
    }
  }

  /** `generateMaze(rows, cols, seed)`: the grid it returns is a perfect
      maze, carved in the order `order`, and it is determined by `rows`,
      `cols` and `seed >>> 0` alone. */
  method GenerateMaze(rows: int, cols: int, seed: int) returns (grid: array2<Cell>, ghost order: seq<Pos>)
    requires rows >= 1 && cols >= 1
    ensures fresh(grid) && grid.Length0 == rows && grid.Length1 == cols
    ensures PerfectMaze(grid, order)
    ensures order == CarveOf(rows, cols, seed).order
    ensures MazeOf(grid, seed)
  {
    var gen := new Generator(rows, cols, seed);
    assert Tree([Pos(0, 0)], [], [], rows, cols);
    gen.Visit(Pos(0, 0), rows * cols);
    grid, order := gen.grid, gen.order;
    CarveMakesPerfectMaze(grid, order, gen.carved, gen.links);
    MatchedGridIsMaze(grid, gen.carved, seed);
  }
}
