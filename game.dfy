/** The game session: the current maze and players, the phase of the race,
    and the progress that `localStorage` keeps between visits (the highest
    unlocked level, the last level played, the seed of every level and the
    leaderboard). Each event handler of the page is a method. */
module Game {
  import opened Grid
  import opened MazeGen
  import opened Players
  import opened Levels
  import opened Leaderboard
  import opened Rules

  /** `setupPlayers`: a second player joins only in two-player mode. */
  function PlayerCount(mode: int): (n: nat)
    ensures n == 1 || n == 2
    ensures n == 2 <==> mode == 2
  {
    if mode == 2 then 2 else 1
  }

  /** The cell a player stands on. */
  function PosOf(p: Player): Pos
    reads p
  {
    Pos(p.row, p.col)
  }

  /** The cells the players stand on, in player order. */
  ghost function PositionsOf(ps: seq<Player>): (r: seq<Pos>)
    reads ps
    ensures |r| == |ps|
    ensures forall i :: 0 <= i < |ps| ==> r[i] == PosOf(ps[i])
    decreases |ps|
  {
    if ps == [] then []
    else PositionsOf(ps[..|ps| - 1]) + [PosOf(ps[|ps| - 1])]
  }

  /** No player object appears twice, so moving one moves no other. */
  predicate Distinct(ps: seq<Player>)
  {
    forall i, j :: 0 <= i < j < |ps| ==> ps[i] != ps[j]
  }

  /** The current level is unlocked, the maze has its size, and the level
      has a registered seed. */
  predicate LevelFits(level: int, maxLevel: int, rows: int, cols: int, seeds: map<int, int>)
  {
    && 1 <= level <= Max(1, maxLevel)
    && Size(rows, cols) == SizeForLevel(level)
    && HasSeed(seeds, level)
  }

  class Session {
    var state: Phase
    var level: int
    /** `ROWS` and `COLS`. */
    var rows: int
    var cols: int
    var maze: array2<Cell>
    var players: seq<Player>
    var startTime: Option<int>
    var winner: Option<int>
    var winTime: int
    var playerMode: int
    // What `localStorage` keeps.
    var maxLevel: int
    var lastLevel: int
    var seeds: map<int, int>
    var scores: seq<Score>

    /** The bottom-right cell, which the players race to. */
    function Goal(): Pos
      reads this
    {
      Pos(rows - 1, cols - 1)
    }

    /** The goal is the cell of the maze with no cell south or east of it. */
    lemma GoalIsCorner()
      requires rows >= 1 && cols >= 1
      ensures InGrid(Goal(), rows, cols)
      ensures !InGrid(Neighbor(Goal(), S), rows, cols) && !InGrid(Neighbor(Goal(), E), rows, cols)
      ensures forall p ::
                (InGrid(p, rows, cols) && !InGrid(Neighbor(p, S), rows, cols) && !InGrid(Neighbor(p, E), rows, cols))
                ==> p == Goal()
    {
    }

    ghost function Positions(): seq<Pos>
      reads this, players
    {
      PositionsOf(players)
    }

    function Snapshot(): Progress
      reads this
    {
      Progress(state, winner, winTime, maxLevel, lastLevel)
    }

    /** The players of the mode: `P1` on the arrows and, in two-player
        mode, `P2` on the letters, two distinct objects. */
    ghost predicate Roster()
      reads this
    {
      && |players| == PlayerCount(playerMode)
      && players[0].keys == Arrows
      && (|players| == 2 ==> players[1].keys == Letters)
      && Distinct(players)
    }

    /** What holds between events, whatever the phase, with the levels up
        to `unlocked` open: the level, the maze and the players fit
        together, and the maze is the one the level's seed generates. */
    ghost predicate BoardAt(unlocked: int)
      reads this, maze, players
    {
      && LevelFits(level, unlocked, rows, cols, seeds)
      && maze.Length0 == rows && maze.Length1 == cols && BoundaryIntact(maze)
      && MazeOf(maze, seeds[level])
      && Roster()
      && forall i :: 0 <= i < |players| ==> InGrid(PosOf(players[i]), rows, cols)
    }

    ghost predicate Board()
      reads this, maze, players
    {
      BoardAt(maxLevel)
    }

    /** What holds between events. In the menu the clock is off and every
        player is on the start cell; during a race nobody is on the goal
        yet; after a race there is a winner and the next level is unlocked
        and remembered. */
    ghost predicate Valid()
      reads this, maze, players
    {
      && Board()
      && (startTime == None <==> state == Menu)
      && (state == Menu ==> forall i :: 0 <= i < |players| ==> PosOf(players[i]) == Pos(0, 0))
      && (state == Playing ==> forall i :: 0 <= i < |players| ==> PosOf(players[i]) != Goal())
      && (state == Gameover ==>
            && winner.Some? && 1 <= winner.value <= |players|
            && maxLevel >= level + 1 && lastLevel == level + 1)
    }

    /** How a race step ends, from the progress `pr` and the leaderboard
        `saved` before it: the race goes on with nothing changed, or player
        `m` stands on the goal and has won, with its time saved. */
    ghost predicate RaceOutcome(pr: Progress, saved: seq<Score>, m: int, time: int, ts: int)
      reads this, players
    {
      || (&& state == Playing && Snapshot() == pr && scores == saved)
      || (&& 0 <= m < |players| && PosOf(players[m]) == Goal()
          && Snapshot() == Finish(pr, m, level, time)
          && scores == Record(saved, Score(m + 1, time, level, ts)))
    }

    /** Page load: the stored progress is read back (`boot`), then `setup`
        runs. */
    constructor (maxLevel: int, lastLevel: int, seeds: map<int, int>, scores: seq<Score>,
                 mode: int, draw: nat)
      requires draw < DrawBound
      ensures Valid() && state == Menu
      ensures this.maxLevel == maxLevel && this.lastLevel == lastLevel && this.scores == scores
      ensures this.seeds == EnsureSeed(seeds, level, draw).seeds && playerMode == mode
      ensures level == ClampLevel(lastLevel, maxLevel)
    {
      this.maxLevel, this.lastLevel, this.seeds, this.scores := maxLevel, lastLevel, seeds, scores;
      playerMode, state, winner, winTime, startTime := mode, Menu, None, 0, None;
      level := 1;
      maze := new Cell[0, 0];
      players := [];
      new;
      Setup(draw);
    }

    /** `setupPlayers`: `P1` on the arrow keys and, in two-player mode,
        `P2` on `w`/`s`/`a`/`d`, both on the top-left cell. */
    method SetupPlayers()
      modifies this`players
      ensures Roster()
      ensures forall i :: 0 <= i < |players| ==> fresh(players[i])
      ensures forall i :: 0 <= i < |players| ==> PosOf(players[i]) == Pos(0, 0)
      ensures players[0].tag == "P1" && players[0].color == "lime"
      ensures |players| == 2 ==> players[1].tag == "P2" && players[1].color == "orange"
    {
      var first := new Player("lime", "P1", 0, 0, Arrows);
      if playerMode == 2 {
        var second := new Player("orange", "P2", 0, 0, Letters);
        players := [first, second];
      } else {
        players := [first];
      }
    }

    /** `setupMazeOnly`: the level's seed (drawn and registered if it has
        none), the level's size, and a fresh maze generated from both. */
    method SetupMazeOnly(draw: nat)
      requires 1 <= level <= Max(1, maxLevel) && draw < DrawBound
      modifies this`seeds, this`rows, this`cols, this`maze
      ensures LevelFits(level, maxLevel, rows, cols, seeds)
      ensures fresh(maze) && maze.Length0 == rows && maze.Length1 == cols && BoundaryIntact(maze)
      ensures MazeOf(maze, seeds[level])
      ensures seeds == EnsureSeed(old(seeds), level, draw).seeds
    {
      var lookup := EnsureSeed(seeds, level, draw);
      var size := SizeForLevel(level);
      seeds, rows, cols := lookup.seeds, size.rows, size.cols;
      ghost var order;
      maze, order := GenerateMaze(rows, cols, lookup.seed);
    }

    /** `setup`: resume at the last level played, clamped to the unlocked
        ones, with a new maze and players, in the menu. */
    method Setup(draw: nat)
      requires draw < DrawBound
      modifies this`level, this`rows, this`cols, this`seeds, this`maze
      modifies this`players, this`startTime, this`winner, this`state
      ensures Valid()
      ensures state == Menu && startTime == None && winner == None
      ensures level == ClampLevel(old(lastLevel), old(maxLevel))
      ensures seeds == EnsureSeed(old(seeds), level, draw).seeds
    {
      level, startTime, winner, state := ClampLevel(lastLevel, maxLevel), None, None, Menu;
      SetupMazeOnly(draw);
      SetupPlayers();
    }

    /** `saveScore`: push the finish, sort by time, keep the first five. */
    method SaveScore(player: int, time: int, lv: int, ts: int)
      modifies this`scores
      ensures scores == Record(old(scores), Score(player, time, lv, ts))
    {
      var list := scores + [Score(player, time, lv, ts)];
      list := SortByTime(list);
      list := list[..Min(|list|, Capacity)];
      scores := list;
    }

    /** `checkWin`: every player on the goal, in order, wins, has its time
        saved, unlocks and remembers the next level and ends the game;
        `time` is the elapsed time in hundredths of a second and `ts` the
        clock reading saved with the score. */
    method CheckWin(time: int, ts: int)
      modifies this`state, this`winner, this`winTime, this`maxLevel, this`lastLevel, this`scores
      ensures Snapshot() == ScanWins(Positions(), Goal(), |players|, old(Snapshot()), level, time)
      ensures scores == ScanScores(Positions(), Goal(), |players|, old(scores), level, time, ts)
    {
      ghost var ps, goal, start, saved := Positions(), Goal(), Snapshot(), scores;
      for i := 0 to |players|
        invariant Progress(state, winner, winTime, maxLevel, lastLevel)
               == ScanWins(ps, goal, i, start, level, time)
        invariant scores == ScanScores(ps, goal, i, saved, level, time, ts)
      {
        var p := players[i];
        if p.row == rows - 1 && p.col == cols - 1 {
          assert ps[i] == goal;
          winner, winTime := Some(i + 1), time;
          SaveScore(i + 1, time, level, ts);
          maxLevel, lastLevel := Max(maxLevel, level + 1), level + 1;
          state := Gameover;
        } else {
          assert ps[i] != goal;
        }
      }
      assert Positions() == ps;
    }

    /** The `players.forEach` of the key handler: each player whose up,
        down, left or right key was pressed moves that way. */
    method MovePlayers(key: Key)
      requires BoundaryIntact(maze)
      requires forall i :: 0 <= i < |players| ==> InGrid(PosOf(players[i]), maze.Length0, maze.Length1)
      requires Distinct(players)
      modifies players
      ensures forall i :: 0 <= i < |players| ==>
                PosOf(players[i]) == Respond(maze, old(PosOf(players[i])), players[i].keys, key)
    {
      for i := 0 to |players|
        invariant forall j :: 0 <= j < i ==>
                    PosOf(players[j]) == Respond(maze, old(PosOf(players[j])), players[j].keys, key)
        invariant forall j :: i <= j < |players| ==> PosOf(players[j]) == old(PosOf(players[j]))
      {
        var p := players[i];
        MoveOne(p, key);
      }
    }

    /** One player's four `if`s: at most one of its keys matches. */
    method MoveOne(p: Player, key: Key)
      requires BoundaryIntact(maze)
      requires InGrid(PosOf(p), maze.Length0, maze.Length1)
      modifies p
      ensures PosOf(p) == Respond(maze, old(PosOf(p)), p.keys, key)
    {
      if key == KeyFor(p.keys, N) { p.Move(maze, N); }
      if key == KeyFor(p.keys, S) { p.Move(maze, S); }
      if key == KeyFor(p.keys, W) { p.Move(maze, W); }
      if key == KeyFor(p.keys, E) { p.Move(maze, E); }
    }

    /** The space bar in the menu: the race starts and its clock with it. */
    method StartRace(now: int)
      requires Valid() && state == Menu
      modifies this`state, this`startTime
      ensures Valid() && state == Playing && startTime == Some(now)
    {
      state, startTime := Playing, Some(now);
    }

    /** `r` after a win: on to the next level, which is remembered and given
        its seed, then `setup`, which starts that level in the menu. */
    method NextLevel(draw: nat, draw': nat)
      requires Valid() && state == Gameover && draw < DrawBound && draw' < DrawBound
      modifies this`level, this`rows, this`cols, this`seeds, this`maze
      modifies this`players, this`startTime, this`winner, this`state, this`lastLevel
      ensures Valid() && state == Menu && startTime == None && winner == None
      ensures level == old(level) + 1 && lastLevel == level
      ensures seeds == EnsureSeed(old(seeds), level, draw).seeds
    {
      level := Max(level + 1, 1);
      lastLevel := level;
      var lookup := EnsureSeed(seeds, level, draw);
      seeds := lookup.seeds;
      Setup(draw');
      EnsureSeedIdempotent(old(seeds), old(level) + 1, draw, draw');
    }

    /** The moves of a key during the race: only the player the key
        steers can move, so whoever else was off the goal stays off it. */
    method Advance(key: Key)
      requires Valid() && state == Playing
      modifies players
      ensures Board()
      ensures forall i :: 0 <= i < |players| ==>
                PosOf(players[i]) == Respond(maze, old(PosOf(players[i])), players[i].keys, key)
      ensures forall i :: 0 <= i < |players| && i != Mover(key) ==> PosOf(players[i]) != Goal()
    {
      MovePlayers(key);
      forall i | 0 <= i < |players| && i != Mover(key)
        ensures PosOf(players[i]) != Goal()
      {
        assert Controls(players[i].keys, key).None?;
      }
    }

    /** What `checkWin` leaves after a race step where nobody but player
        `m` can be on the goal: the state is valid again and the step has
        one of its two outcomes. The players stand at `ps`, and the progress
        and the leaderboard were `pr` and `saved` before the scan. */
    lemma RaceEndsValid(m: int, ps: seq<Pos>, pr: Progress, saved: seq<Score>, time: int, ts: int)
      requires Positions() == ps && BoardAt(pr.maxLevel)
      requires pr.state == Playing && startTime.Some?
      requires forall i :: 0 <= i < |ps| && i != m ==> ps[i] != Goal()
      requires Snapshot() == ScanWins(ps, Goal(), |ps|, pr, level, time)
      requires scores == ScanScores(ps, Goal(), |ps|, saved, level, time, ts)
      ensures Valid() && RaceOutcome(pr, saved, m, time, ts)
    {
      OneWinner(ps, Goal(), m, pr, saved, level, time, ts);
    }

    /** `checkWin` after the moves of `key` during a race, when nobody but
        the player the key steers can be on the goal. */
    method Conclude(key: Key, time: int, ts: int)
      requires Board() && state == Playing && startTime.Some?
      requires forall i :: 0 <= i < |players| && i != Mover(key) ==> PosOf(players[i]) != Goal()
      modifies this`state, this`winner, this`winTime, this`maxLevel, this`lastLevel, this`scores
      ensures Valid() && RaceOutcome(old(Snapshot()), old(scores), Mover(key), time, ts)
    {
      ghost var m, ps, pr, saved := Mover(key), Positions(), Snapshot(), scores;
      assert forall i :: 0 <= i < |ps| && i != m ==> ps[i] != Goal();
      CheckWin(time, ts);
      assert Positions() == ps;
      assert BoardAt(pr.maxLevel);
      RaceEndsValid(m, ps, pr, saved, time, ts);
    }

    /** A key during the race: the players it steers move, then `checkWin`
        runs. Only one player's keys can match, so either nobody is on the
        goal and nothing else changes, or that player alone has won. */
    method Play(key: Key, time: int, now: int)
      requires Valid() && state == Playing
      modifies players, this`state, this`winner, this`winTime, this`maxLevel, this`lastLevel, this`scores
      ensures Valid()
      ensures forall i :: 0 <= i < |players| ==>
                PosOf(players[i]) == Respond(maze, old(PosOf(players[i])), players[i].keys, key)
      ensures RaceOutcome(old(Snapshot()), old(scores), Mover(key), time, now)
      ensures maxLevel >= old(maxLevel)
    {
      Advance(key);
      Conclude(key, time, now);
    }

    /** The keys outside a race: Space in the menu starts the race, `r`
        after a win moves on to the next level, and any other key does
        nothing. No player moves and nothing but the phase, the clock and,
        for `r`, the level and its seed, maze and players changes. */
    method Navigate(key: Key, now: int, draw: nat, draw': nat)
      requires Valid() && state != Playing && draw < DrawBound && draw' < DrawBound
      modifies this, players
      ensures Valid()
      ensures maxLevel == old(maxLevel) && scores == old(scores) && playerMode == old(playerMode)
      ensures old(state) == Menu && key == Space ==>
                state == Playing && startTime == Some(now) && level == old(level)
      ensures old(state) == Gameover && key == KeyR ==>
                && state == Menu && level == old(level) + 1 && lastLevel == level
                && seeds == EnsureSeed(old(seeds), level, draw).seeds && startTime == None && winner == None
      ensures (old(state) == Menu && key != Space) || (old(state) == Gameover && key != KeyR) ==>
                state == old(state) && Snapshot() == old(Snapshot()) && startTime == old(startTime)
      ensures !(old(state) == Gameover && key == KeyR) ==>
                && players == old(players) && maze == old(maze) && level == old(level)
                && seeds == old(seeds) && winner == old(winner) && winTime == old(winTime)
                && lastLevel == old(lastLevel)
                && forall i :: 0 <= i < |players| ==> PosOf(players[i]) == old(PosOf(players[i]))
    {
      if state == Menu && key == Space {
        StartRace(now);
      } else if state == Gameover && key == KeyR {
        NextLevel(draw, draw');
      }
    }

    /** The key handler. `now` is the `Date.now()` of the event, `time` the
        elapsed race time it gives (in hundredths of a second), and `draw`
        and `draw'` stand for the `Math.random()` draws of the two seed
        lookups `r` can make. Players move only during a race, and the
        highest unlocked level never goes down. */
    method KeyDown(key: Key, now: int, time: int, draw: nat, draw': nat)
      requires Valid() && draw < DrawBound && draw' < DrawBound
      modifies this, players
      ensures Valid()
      ensures old(state) == Menu && key == Space ==>
                state == Playing && startTime == Some(now) && level == old(level)
      ensures old(state) == Gameover && key == KeyR ==>
                && state == Menu && level == old(level) + 1 && lastLevel == level
                && maxLevel == old(maxLevel) && scores == old(scores)
                && seeds == EnsureSeed(old(seeds), level, draw).seeds && startTime == None && winner == None
      ensures old(state) == Playing ==>
                && RaceOutcome(old(Snapshot()), old(scores), Mover(key), time, now)
                && players == old(players) && maze == old(maze) && level == old(level)
                && seeds == old(seeds) && startTime == old(startTime)
                && forall i :: 0 <= i < |players| ==>
                     PosOf(players[i]) == Respond(maze, old(PosOf(players[i])), players[i].keys, key)
      ensures (old(state) == Menu && key != Space) || (old(state) == Gameover && key != KeyR) ==>
                state == old(state) && Snapshot() == old(Snapshot()) && startTime == old(startTime)
      ensures old(state) != Playing && !(old(state) == Gameover && key == KeyR) ==>
                && players == old(players) && maze == old(maze) && level == old(level)
                && seeds == old(seeds) && scores == old(scores) && winner == old(winner)
                && winTime == old(winTime) && maxLevel == old(maxLevel) && lastLevel == old(lastLevel)
                && forall i :: 0 <= i < |players| ==> PosOf(players[i]) == old(PosOf(players[i]))
      ensures maxLevel >= old(maxLevel) && playerMode == old(playerMode)
    {
      if state == Playing {
        Play(key, time, now);
      } else {
        Navigate(key, now, draw, draw');
      }
    }

    /** A click on "Level `i`" in the level list: that level is remembered
        and starts at once, skipping the menu. The winner of an earlier
        race is not cleared. */
    method SelectLevel(i: int, now: int, draw: nat)
      requires Valid() && 1 <= i <= maxLevel && draw < DrawBound
      modifies this`level, this`lastLevel, this`rows, this`cols, this`seeds, this`maze
      modifies this`players, this`state, this`startTime
      ensures Valid() && state == Playing && startTime == Some(now)
      ensures level == i && lastLevel == i && playerMode == old(playerMode)
      ensures seeds == EnsureSeed(old(seeds), i, draw).seeds
      ensures forall k :: 0 <= k < |players| ==> fresh(players[k]) && PosOf(players[k]) == Pos(0, 0)
    {
      level, lastLevel, state, startTime := i, i, Playing, Some(now);
      SetupMazeOnly(draw);
      SetupPlayers();
    }

    /** The reset button: when the player confirms, every stored value is
        removed, so each reads back as its default (level 1 unlocked, last
        level 1, no seeds, no scores), and `setup` runs. */
    method ResetProgress(confirmed: bool, draw: nat)
      requires Valid() && draw < DrawBound
      modifies this
      ensures Valid()
      ensures confirmed ==>
                && state == Menu && level == 1 && maxLevel == 1 && lastLevel == 1
                && scores == [] && seeds == map[1 := draw + 1]
                && startTime == None && winner == None
      ensures playerMode == old(playerMode) && |players| == PlayerCount(playerMode)
      ensures winTime == old(winTime)
      ensures !confirmed ==> unchanged(this)
    {
      if confirmed {
        maxLevel, lastLevel, seeds, scores := 1, 1, map[], [];
        level := 1;
        Setup(draw);
      }
    }

    /** The mode selector: the new number of players is stored and `setup`
        runs. */
    method ChangeMode(mode: int, draw: nat)
      requires Valid() && draw < DrawBound
      modifies this
      ensures Valid() && state == Menu && playerMode == mode && |players| == PlayerCount(mode)
      ensures level == ClampLevel(old(lastLevel), old(maxLevel))
      ensures maxLevel == old(maxLevel) && lastLevel == old(lastLevel) && scores == old(scores)
      ensures seeds == EnsureSeed(old(seeds), level, draw).seeds
      ensures startTime == None && winner == None && winTime == old(winTime)
    {
      playerMode := mode;
      Setup(draw);
    }
  }
}
