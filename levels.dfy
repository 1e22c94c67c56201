/** Level bookkeeping: the maze size of each level, the clamp that picks
    the level to resume at, and the registry that gives every level one
    seed for good. */
module Levels {

  function Max(a: int, b: int): int
  {
    if a >= b then a else b
  }

  function Min(a: int, b: int): int
  {
    if a <= b then a else b
  }

  datatype Size = Size(rows: int, cols: int)

  /** `sizeForLevel(lv)`: level 1 is 10 by 14 cells, and every level adds
      two rows and two columns. */
  function SizeForLevel(lv: int): (sz: Size)
    ensures sz.cols == sz.rows + 4
    ensures sz.rows % 2 == 0
    ensures lv >= 1 ==> sz.rows >= 10 && sz.cols >= 14
    ensures lv >= 1 <==> sz.rows >= 10
  {
    Size(10 + (lv - 1) * 2, 14 + (lv - 1) * 2)
  }

  /** Each level's maze is larger than the previous one's, by two rows
      and two columns per level. */
  lemma SizeGrows(lv: int, lv': int)
    requires lv <= lv'
    ensures SizeForLevel(lv').rows - SizeForLevel(lv).rows == 2 * (lv' - lv)
    ensures SizeForLevel(lv').cols - SizeForLevel(lv).cols == 2 * (lv' - lv)
  {
  }

  /** `Math.max(1, Math.min(lastLevel, maxLevel))` in `setup`: the level to
      resume at is the last level played when it is unlocked, the highest
      unlocked level when it is not, and never below 1. */
  function ClampLevel(lastLevel: int, maxLevel: int): (lv: int)
    ensures 1 <= lv <= Max(1, maxLevel)
    ensures 1 <= lastLevel <= maxLevel ==> lv == lastLevel
    ensures lastLevel > maxLevel ==> lv == Max(1, maxLevel)
    ensures lastLevel < 1 ==> lv == 1
  {
    Max(1, Min(lastLevel, maxLevel))
  }

  /** `Math.floor(Math.random() * 1e9)` lies below this bound. */
  const DrawBound: nat := 1_000_000_000

  /** `seeds[lv]` is truthy: present and not zero. */
  predicate HasSeed(seeds: map<int, int>, lv: int)
  {
    lv in seeds && seeds[lv] != 0
  }

  /** The seed `ensureSeedForLevel` returns and the registry it leaves. */
  datatype Lookup = Lookup(seed: int, seeds: map<int, int>)

  /** `ensureSeedForLevel(lv)`, with `draw` standing for
      `Math.floor(Math.random() * 1e9)`: a registered seed is returned
      unchanged; otherwise `draw + lv` is registered for `lv` and returned.
      No other level's seed is touched. */
  function EnsureSeed(seeds: map<int, int>, lv: int, draw: nat): (r: Lookup)
    requires draw < DrawBound
    ensures lv in r.seeds && r.seed == r.seeds[lv]
    ensures HasSeed(seeds, lv) ==> r == Lookup(seeds[lv], seeds)
    ensures !HasSeed(seeds, lv) ==> lv <= r.seed < lv + DrawBound
    ensures r.seeds.Keys == seeds.Keys + {lv}
    ensures forall k :: k in seeds && k != lv ==> r.seeds[k] == seeds[k]
    ensures lv >= 1 ==> HasSeed(r.seeds, lv)
  {
    if HasSeed(seeds, lv) then Lookup(seeds[lv], seeds)
    else
      var s := draw + lv;
      Lookup(s, seeds[lv := s])
  }

  /** Once a level has a seed it keeps it: asking again, whatever
      `Math.random()` returns, gives the same seed and the same registry. */
  lemma EnsureSeedIdempotent(seeds: map<int, int>, lv: int, draw: nat, draw': nat)
    requires lv >= 1 && draw < DrawBound && draw' < DrawBound
    ensures EnsureSeed(EnsureSeed(seeds, lv, draw).seeds, lv, draw') == EnsureSeed(seeds, lv, draw)
  {
  }
}
