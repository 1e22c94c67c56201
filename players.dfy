/** A player: a coloured square on the maze that moves one cell at a time
    through open walls. */
module Players {
  import opened Grid

  /** The keys a player steers with: the arrow keys, or `w`/`s`/`a`/`d`. */
  datatype Keys = Arrows | Letters

  /** Where a player standing at `p` ends up after asking to move in
      direction `d`: it stays when the wall on that side stands. */
  function Step(maze: array2<Cell>, p: Pos, d: Dir): (q: Pos)
    reads maze
    requires InGrid(p, maze.Length0, maze.Length1)
    ensures q == p || Route(maze, p, [d], q)
    ensures q == p <==> Wall(maze[p.row, p.col], d)
    ensures BoundaryIntact(maze) ==> InGrid(q, maze.Length0, maze.Length1)
  {
    StepBack(p, d);
    if Wall(maze[p.row, p.col], d) then p else Neighbor(p, d)
  }

  /** Where a player standing at `p` ends up after asking for the moves `ds`
      in turn, on a maze whose border is closed. */
  function Walk(maze: array2<Cell>, p: Pos, ds: seq<Dir>): (q: Pos)
    reads maze
    requires BoundaryIntact(maze) && InGrid(p, maze.Length0, maze.Length1)
    ensures InGrid(q, maze.Length0, maze.Length1)
    decreases |ds|
  {
    if ds == [] then p else Walk(maze, Step(maze, p, ds[0]), ds[1..])
  }

  /** Whatever keys are pressed, a player only ever reaches cells that are
      connected to its start through open walls. */
  lemma {:induction false} WalkFollowsPassages(maze: array2<Cell>, p: Pos, ds: seq<Dir>)
    requires BoundaryIntact(maze) && InGrid(p, maze.Length0, maze.Length1)
    ensures Reachable(maze, p, Walk(maze, p, ds))
    decreases |ds|
  {
    if ds == [] {
      assert Route(maze, p, [], p);
    } else {
      var q := Step(maze, p, ds[0]);
      WalkFollowsPassages(maze, q, ds[1..]);
      var rest :| Route(maze, q, rest, Walk(maze, q, ds[1..]));
      if q != p {
        assert Route(maze, p, [ds[0]] + rest, Walk(maze, p, ds)) by {
          assert ([ds[0]] + rest)[1..] == rest;
        }
      }
    }
  }

  class Player {
    const color: string
    /** The `label` drawn on the square (`P1`, `P2`). */
    const tag: string
    var row: int
    var col: int
    const keys: Keys

    constructor (color: string, tag: string, row: int, col: int, keys: Keys)
      ensures this.color == color && this.tag == tag && this.keys == keys
      ensures this.row == row && this.col == col
    {
      this.color := color;
      this.tag := tag;
      this.row := row;
      this.col := col;
      this.keys := keys;
    }

    /** `move(dir)`: step to the neighbouring cell unless the wall on that
        side of the current cell stands. */
    method Move(maze: array2<Cell>, d: Dir)
      requires InGrid(Pos(row, col), maze.Length0, maze.Length1)
      modifies this
      ensures Pos(row, col) == Step(maze, old(Pos(row, col)), d)
    {
      var cell := maze[row, col];
      if !Wall(cell, d) {
        match d
        case N => row := row - 1;
        case S => row := row + 1;
        case E => col := col + 1;
        case W => col := col - 1;
      }
    }
  }
}
