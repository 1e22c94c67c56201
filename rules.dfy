/** The rules of a race, as values: the game phases, the input events, which
    player a key steers, and what `checkWin` does to the progress record
    when it scans the players in order. */
module Rules {
  import opened Grid
  import opened Players
  import opened Levels
  import opened Leaderboard

  datatype Option<T> = None | Some(value: T)

  /** `state`: `"menu"`, `"playing"` or `"gameover"`. */
  datatype Phase = Menu | Playing | Gameover

  /** A key press, by what the handler makes of it: the space bar, `r` or
      `R`, an arrow key, one of `w`/`s`/`a`/`d`, or anything else. */
  datatype Key = Space | KeyR | Arrow(dir: Dir) | Letter(dir: Dir) | Other

  /** The direction a player with the key set `keys` moves in when `key`
      is pressed, if any: arrows steer the arrow-key player, letters the
      other one. */
  function Controls(keys: Keys, key: Key): (d: Option<Dir>)
    ensures d.Some? <==> (key.Arrow? && keys == Arrows) || (key.Letter? && keys == Letters)
    ensures d.Some? ==> d.value == key.dir
  {
    match key
    case Arrow(dir) => if keys == Arrows then Some(dir) else None
    case Letter(dir) => if keys == Letters then Some(dir) else None
    case _ => None
  }

  /** The player (0 for `P1`, who has the arrows, 1 for `P2`, who has the
      letters) a key steers, or -1 for a key that steers nobody. */
  function Mover(key: Key): (m: int)
    ensures -1 <= m <= 1
    ensures Controls(Arrows, key).Some? <==> m == 0
    ensures Controls(Letters, key).Some? <==> m == 1
  {
    match key
    case Arrow(_) => 0
    case Letter(_) => 1
    case _ => -1
  }

  /** The key bound to direction `d` for a player with the key set `keys`
      (`keys.up`, `keys.down`, `keys.left`, `keys.right`). */
  function KeyFor(keys: Keys, d: Dir): (k: Key)
    ensures Controls(keys, k) == Some(d)
  {
    if keys == Arrows then Arrow(d) else Letter(d)
  }

  /** A player reacts to a key exactly when it is one of its four keys, and
      then moves in that key's direction. */
  lemma ControlsIsKeyFor(keys: Keys, key: Key, d: Dir)
    ensures Controls(keys, key) == Some(d) <==> key == KeyFor(keys, d)
  {
  }

  /** Where a player at `p` with the key set `keys` ends up when `key` is
      pressed during play. */
  function Respond(maze: array2<Cell>, p: Pos, keys: Keys, key: Key): (q: Pos)
    reads maze
    requires InGrid(p, maze.Length0, maze.Length1)
    ensures Controls(keys, key).None? ==> q == p
    ensures q == p || Route(maze, p, [key.dir], q)
    ensures BoundaryIntact(maze) ==> InGrid(q, maze.Length0, maze.Length1)
  {
    match Controls(keys, key)
    case None => p
    case Some(d) => Step(maze, p, d)
  }

  /** The part of the game state `checkWin` can change, apart from the
      leaderboard. */
  datatype Progress = Progress(state: Phase, winner: Option<int>, winTime: int,
                               maxLevel: int, lastLevel: int)

  /** The body of `checkWin`'s `if`, for player `i` on the goal, apart from
      saving its score: it becomes the winner, the next level is unlocked
      and remembered, and the game is over. */
  function Finish(pr: Progress, i: nat, level: int, time: int): (q: Progress)
    ensures q.state == Gameover && q.winner == Some(i + 1) && q.winTime == time
    ensures q.maxLevel >= pr.maxLevel && q.maxLevel >= level + 1
    ensures q.maxLevel == pr.maxLevel || q.maxLevel == level + 1
    ensures q.lastLevel == level + 1
  {
    Progress(Gameover, Some(i + 1), time, Max(pr.maxLevel, level + 1), level + 1)
  }

  /** The progress after the first `n` passes of `checkWin`'s loop over the
      players at positions `ps`. There is no `break`: every player on the
      goal is handled, the last one handled is the winner. */
  function ScanWins(ps: seq<Pos>, goal: Pos, n: nat, pr: Progress, level: int, time: int): (q: Progress)
    requires n <= |ps|
    ensures q.state == pr.state || q.state == Gameover
    ensures q.maxLevel >= pr.maxLevel
    decreases n
  {
    if n == 0 then pr
    else
      var q := ScanWins(ps, goal, n - 1, pr, level, time);
      if ps[n - 1] == goal then Finish(q, n - 1, level, time) else q
  }

  /** The leaderboard after the first `n` passes of `checkWin`'s loop:
      each player on the goal has its score saved in turn. */
  function ScanScores(ps: seq<Pos>, goal: Pos, n: nat, scores: seq<Score>, level: int, time: int, ts: int): (r: seq<Score>)
    requires n <= |ps|
    ensures Min(|scores|, Capacity) <= |r| <= Max(|scores|, Capacity)
    decreases n
  {
    if n == 0 then scores
    else
      var s := ScanScores(ps, goal, n - 1, scores, level, time, ts);
      if ps[n - 1] == goal then Record(s, Score(n, time, level, ts)) else s
  }

  /** The indices below `n` of the players standing on the goal, in order. */
  function Finishers(ps: seq<Pos>, goal: Pos, n: nat): seq<nat>
    requires n <= |ps|
    decreases n
  {
    if n == 0 then []
    else Finishers(ps, goal, n - 1) + (if ps[n - 1] == goal then [n - 1] else [])
  }

  /** `Finishers` lists exactly the players below `n` on the goal, each
      once, in increasing order. */
  lemma {:induction false} FinishersExact(ps: seq<Pos>, goal: Pos, n: nat)
    requires n <= |ps|
    ensures forall a :: 0 <= a < |Finishers(ps, goal, n)| ==>
              Finishers(ps, goal, n)[a] < n && ps[Finishers(ps, goal, n)[a]] == goal
    ensures forall k :: 0 <= k < n && ps[k] == goal ==> k in Finishers(ps, goal, n)
    ensures forall a, b :: 0 <= a < b < |Finishers(ps, goal, n)| ==>
              Finishers(ps, goal, n)[a] < Finishers(ps, goal, n)[b]
    decreases n
  {
    if n > 0 {
      FinishersExact(ps, goal, n - 1);
      var ix0 := Finishers(ps, goal, n - 1);
      if ps[n - 1] == goal {
        var ix := ix0 + [n - 1];
        assert Finishers(ps, goal, n) == ix;
        assert forall a :: 0 <= a < |ix0| ==> ix[a] == ix0[a];
      } else {
        assert Finishers(ps, goal, n) == ix0;
      }
    }
  }

  /** What `checkWin` does to the game: with nobody on the goal nothing
      changes; otherwise the game is over, the last player on the goal is
      the winner, and the next level is unlocked and remembered. */
  lemma {:induction false} ScanWinsOutcome(ps: seq<Pos>, goal: Pos, n: nat, pr: Progress, level: int, time: int)
    requires n <= |ps|
    ensures var q, ix := ScanWins(ps, goal, n, pr, level, time), Finishers(ps, goal, n);
      && (ix == [] ==> q == pr)
      && (ix != [] ==>
            && q.state == Gameover && q.winner == Some(ix[|ix| - 1] + 1) && q.winTime == time
            && q.maxLevel == Max(pr.maxLevel, level + 1) && q.lastLevel == level + 1)
    decreases n
  {
    if n > 0 {
      ScanWinsOutcome(ps, goal, n - 1, pr, level, time);
      var ix0 := Finishers(ps, goal, n - 1);
      if ps[n - 1] == goal {
        var ix := ix0 + [n - 1];
        assert Finishers(ps, goal, n) == ix;
        assert ix[|ix| - 1] == n - 1;
      } else {
        assert Finishers(ps, goal, n) == ix0;
      }
    }
  }

  /** When no player below `n` but possibly `m` stands on the goal, the
      first `n` passes of `checkWin` save either nothing or the score of
      `m` alone. */
  lemma {:induction false} ScanScoresUnique(ps: seq<Pos>, goal: Pos, n: nat, m: int, scores: seq<Score>, level: int, time: int, ts: int)
    requires n <= |ps|
    requires forall i :: 0 <= i < n && i != m ==> ps[i] != goal
    ensures ScanScores(ps, goal, n, scores, level, time, ts)
         == if 0 <= m < n && ps[m] == goal then Record(scores, Score(m + 1, time, level, ts)) else scores
    decreases n
  {
    if n > 0 {
      ScanScoresUnique(ps, goal, n - 1, m, scores, level, time, ts);
    }
  }

  /** When nobody but possibly player `m` stands on the goal, `checkWin`
      finds at most that one player there: its missing `break` never lets
      a second player overwrite the winner. */
  lemma AtMostOneFinisher(ps: seq<Pos>, goal: Pos, m: int)
    requires forall i :: 0 <= i < |ps| && i != m ==> ps[i] != goal
    ensures Finishers(ps, goal, |ps|) == []
         || (0 <= m && Finishers(ps, goal, |ps|) == [m as nat])
  {
    var ix := Finishers(ps, goal, |ps|);
    FinishersExact(ps, goal, |ps|);
    FirstTwo(ix);
    forall a | 0 <= a < |ix|
      ensures ix[a] == m
    {
      assert ps[ix[a]] == goal;
    }
  }

  /** When nobody but possibly player `m` stands on the goal, `checkWin`
      either finds nobody there and changes nothing, or ends the game with
      `m` as the one winner and its score saved once. */
  lemma OneWinner(ps: seq<Pos>, goal: Pos, m: int, pr: Progress,
                  scores: seq<Score>, level: int, time: int, ts: int)
    requires forall i :: 0 <= i < |ps| && i != m ==> ps[i] != goal
    ensures var q := ScanWins(ps, goal, |ps|, pr, level, time);
            var saved := ScanScores(ps, goal, |ps|, scores, level, time, ts);
      || ((forall i :: 0 <= i < |ps| ==> ps[i] != goal) && q == pr && saved == scores)
      || (&& 0 <= m < |ps| && ps[m] == goal
          && q == Finish(pr, m, level, time)
          && saved == Record(scores, Score(m + 1, time, level, ts)))
  {
    AtMostOneFinisher(ps, goal, m);
    FinishersExact(ps, goal, |ps|);
    ScanWinsOutcome(ps, goal, |ps|, pr, level, time);
    ScanScoresUnique(ps, goal, |ps|, m, scores, level, time, ts);
  }

  /** In an increasing list the first entry is below the second. */
  lemma FirstTwo(ix: seq<nat>)
    requires forall a, b :: 0 <= a < b < |ix| ==> ix[a] < ix[b]
    ensures |ix| >= 2 ==> ix[0] < ix[1]
  {
  }
}
