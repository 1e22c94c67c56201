/** The leaderboard: the five fastest finishes. `saveScore` appends the
    new finish, sorts by time (a stable sort: equal times keep their
    order) and keeps the first five. Times are in hundredths of a second,
    the precision `toFixed(2)` keeps. */
module Leaderboard {
  import opened Levels

  /** One finish: the winning player's number, the time in hundredths of a
      second, the level and the `Date.now()` timestamp. */
  datatype Score = Score(player: int, time: int, level: int, ts: int)

  /** `scores.slice(0, 5)`. */
  const Capacity: nat := 5

  ghost predicate SortedByTime(s: seq<Score>)
  {
    forall i, j :: 0 <= i < j < |s| ==> s[i].time <= s[j].time
  }

  /** `x` placed into `s` after the longest prefix of entries at most as
      slow as it, which is where a stable sort puts an entry that comes
      last. */
  function Insert(s: seq<Score>, x: Score): (t: seq<Score>)
    ensures |t| == |s| + 1
    decreases |s|
  {
    if s == [] then [x]
    else if x.time < s[0].time then [x] + s
    else [s[0]] + Insert(s[1..], x)
  }

  /** Inserting adds `x` and loses nothing. */
  lemma {:induction false} InsertAdds(s: seq<Score>, x: Score)
    ensures multiset(Insert(s, x)) == multiset(s) + multiset{x}
    decreases |s|
  {
    if s != [] && x.time >= s[0].time {
      InsertAdds(s[1..], x);
      assert s == [s[0]] + s[1..];
    }
  }

  /** Inserting into a list sorted by time keeps it sorted. */
  lemma {:induction false} InsertSorted(s: seq<Score>, x: Score)
    requires SortedByTime(s)
    ensures SortedByTime(Insert(s, x))
    decreases |s|
  {
    if s != [] && x.time >= s[0].time {
      var t := Insert(s[1..], x);
      InsertSorted(s[1..], x);
      assert t[0] == x || t[0] == s[1];
      assert forall k :: 0 <= k < |t| ==> t[0].time <= t[k].time;
    }
  }

  /** The array after `sort((a, b) => a.time - b.time)`: each entry in turn
      inserted into the sorted list of those before it. */
  function SortByTime(s: seq<Score>): (t: seq<Score>)
    ensures |t| == |s|
    decreases |s|
  {
    if s == [] then [] else Insert(SortByTime(s[..|s| - 1]), s[|s| - 1])
  }

  /** Sorting keeps every entry and orders the list by time. */
  lemma {:induction false} SortSorts(s: seq<Score>)
    ensures multiset(SortByTime(s)) == multiset(s)
    ensures SortedByTime(SortByTime(s))
    decreases |s|
  {
    if s != [] {
      var init, last := s[..|s| - 1], s[|s| - 1];
      SortSorts(init);
      InsertAdds(SortByTime(init), last);
      InsertSorted(SortByTime(init), last);
      assert s == init + [last];
    }
  }

  /** Sorting a list already sorted by time changes nothing. */
  lemma {:induction false} SortSorted(s: seq<Score>)
    requires SortedByTime(s)
    ensures SortByTime(s) == s
    decreases |s|
  {
    if s != [] {
      var init, last := s[..|s| - 1], s[|s| - 1];
      SortSorted(init);
      InsertAtEnd(init, last);
    }
  }

  /** An entry no faster than every entry of the list goes at its end. */
  lemma {:induction false} InsertAtEnd(s: seq<Score>, x: Score)
    requires forall i :: 0 <= i < |s| ==> s[i].time <= x.time
    ensures Insert(s, x) == s + [x]
    decreases |s|
  {
    if s != [] {
      InsertAtEnd(s[1..], x);
      assert [s[0]] + (s[1..] + [x]) == s + [x];
    }
  }

  /** `saveScore`'s new list: `e` added, sorted by time, first five kept. */
  function Record(scores: seq<Score>, e: Score): (r: seq<Score>)
    ensures |r| == Min(|scores| + 1, Capacity)
  {
    var all := SortByTime(scores + [e]);
    all[..Min(|all|, Capacity)]
  }

  /** Saving a score leaves at most five entries, one more than before
      until there are five, sorted by time; they come from the old list and
      the new entry, and none of them is slower than an entry dropped. */
  lemma RecordKeepsFastest(scores: seq<Score>, e: Score)
    ensures var r := Record(scores, e);
      && |r| == Min(|scores| + 1, Capacity)
      && SortedByTime(r)
      && multiset(r) <= multiset(scores + [e])
      && forall x, y :: x in r && y in multiset(scores + [e]) - multiset(r) ==> x.time <= y.time
  {
    var all := SortByTime(scores + [e]);
    SortSorts(scores + [e]);
    KeepsFastest(all, Min(|all|, Capacity));
  }

  /** Cutting a sorted list keeps a sorted prefix whose entries are no
      slower than any entry cut off. */
  lemma KeepsFastest(s: seq<Score>, n: nat)
    requires SortedByTime(s) && n <= |s|
    ensures SortedByTime(s[..n])
    ensures multiset(s[..n]) <= multiset(s)
    ensures forall x, y :: x in s[..n] && y in multiset(s) - multiset(s[..n]) ==> x.time <= y.time
  {
    CutOff(s, n);
    forall i, j | 0 <= i < j < n
      ensures s[..n][i].time <= s[..n][j].time
    {
      assert s[..n][i] == s[i] && s[..n][j] == s[j];
    }
    forall x, y | x in s[..n] && y in multiset(s[n..])
      ensures x.time <= y.time
    {
      PrefixBeforeSuffix(s, n, x, y);
    }
  }

  lemma PrefixBeforeSuffix(s: seq<Score>, n: nat, x: Score, y: Score)
    requires SortedByTime(s) && n <= |s|
    requires x in s[..n] && y in multiset(s[n..])
    ensures x.time <= y.time
  {
    var i :| 0 <= i < n && s[..n][i] == x;
    var j :| 0 <= j < |s| - n && s[n..][j] == y;
    assert s[i] == x && s[n + j] == y;
  }

  /** What a cut removes is the rest of the list. */
  lemma CutOff(s: seq<Score>, n: nat)
    requires n <= |s|
    ensures multiset(s) - multiset(s[..n]) == multiset(s[n..])
    ensures multiset(s[..n]) <= multiset(s)
  {
    assert s == s[..n] + s[n..];
  }

  /** Saving on a leaderboard sorted by time, as every saved one is, is
      inserting and cutting: the new entry lands after the entries no
      slower than it. */
  lemma RecordInserts(scores: seq<Score>, e: Score)
    requires SortedByTime(scores)
    ensures Record(scores, e) == Insert(scores, e)[..Min(|scores| + 1, Capacity)]
  {
    assert scores + [e] == (scores + [e])[..|scores|] + [e];
    assert (scores + [e])[..|scores|] == scores;
    SortSorted(scores);
  }
}
