/** The best-times lists: one list per difficulty, fastest first, at most ten entries. */
module Scores {
  import opened Settings

  /** One recorded win: the time taken in seconds and the day it was won (an opaque date text). */
  datatype Score = Score(time: int, date: string)

  /** How many entries a list keeps. */
  const MaxScores := 10

  predicate SortedByTime(s: seq<Score>) {
    forall i, j :: 0 <= i < j < |s| ==> s[i].time <= s[j].time
  }

  /** Places `x` after every leading entry that is not slower than it. */
  function InsertByTime(s: seq<Score>, x: Score): (r: seq<Score>)
    ensures multiset(r) == multiset(s) + multiset{x}
    ensures |r| == |s| + 1
    ensures r[0] == x || (s != [] && r[0] == s[0])
    ensures SortedByTime(s) ==> SortedByTime(r)
  {
    if s == [] then [x]
    else if x.time < s[0].time then [x] + s
    else
      assert s == [s[0]] + s[1..];
      [s[0]] + InsertByTime(s[1..], x)
  }

  /** A stable sort by ascending time, standing for the comparator sort `(a, b) => a.time - b.time`. */
  function SortByTime(s: seq<Score>): (r: seq<Score>)
    ensures SortedByTime(r)
    ensures multiset(r) == multiset(s)
    ensures |r| == |s|
  {
    if s == [] then []
    else
      assert s == s[..|s| - 1] + [s[|s| - 1]];
      InsertByTime(SortByTime(s[..|s| - 1]), s[|s| - 1])
  }

  /** The first ten entries, or all of them when there are fewer. */
  function KeepBest(s: seq<Score>): seq<Score> {
    if |s| > MaxScores then s[..MaxScores] else s
  }

  /** A difficulty's list after one more win: push, sort by time, keep the best ten. */
  function Record(list: seq<Score>, x: Score): seq<Score> {
    KeepBest(SortByTime(list + [x]))
  }

  /** A difficulty's list in the table, or the empty list when it has none yet. */
  function ListOf(table: map<Difficulty, seq<Score>>, d: Difficulty): seq<Score> {
    if d in table then table[d] else []
  }

  /** After a win is recorded the list is sorted, has the right length, holds only old entries and
      the new one, and everything dropped is at least as slow as everything kept. */
  lemma RecordKeepsBest(list: seq<Score>, x: Score)
    ensures SortedByTime(Record(list, x))
    ensures |Record(list, x)| == if |list| + 1 <= MaxScores then |list| + 1 else MaxScores
    ensures multiset(Record(list, x)) <= multiset(list) + multiset{x}
    ensures forall e, k :: e in multiset(list) + multiset{x} - multiset(Record(list, x)) && k in Record(list, x)
              ==> k.time <= e.time
  {
    var sorted := SortByTime(list + [x]);
    assert multiset(list + [x]) == multiset(list) + multiset{x};
    KeepBestOfSorted(sorted);
  }

  /** Cutting a sorted list to its best ten keeps it sorted and drops only its slowest entries. */
  lemma KeepBestOfSorted(s: seq<Score>)
    requires SortedByTime(s)
    ensures SortedByTime(KeepBest(s))
    ensures |KeepBest(s)| == if |s| <= MaxScores then |s| else MaxScores
    ensures multiset(KeepBest(s)) <= multiset(s)
    ensures forall e, k :: e in multiset(s) - multiset(KeepBest(s)) && k in KeepBest(s) ==> k.time <= e.time
  {
    if |s| > MaxScores {
      var kept, dropped := s[..MaxScores], s[MaxScores..];
      assert s == kept + dropped;
      assert multiset(s) == multiset(kept) + multiset(dropped);
      forall e, k | e in multiset(s) - multiset(kept) && k in kept
        ensures k.time <= e.time
      {
        assert e in dropped;
        PrefixNotSlower(s, MaxScores, k, e);
      }
    }
  }

  /** In a sorted list, an entry before position `n` is not slower than an entry from `n` on. */
  lemma PrefixNotSlower(s: seq<Score>, n: nat, k: Score, e: Score)
    requires SortedByTime(s) && n <= |s| && k in s[..n] && e in s[n..]
    ensures k.time <= e.time
  {
    var a :| 0 <= a < n && s[..n][a] == k;
    var b :| 0 <= b < |s| - n && s[n..][b] == e;
    assert s[a] == k && s[n + b] == e;
  }
}
