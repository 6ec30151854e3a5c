/** The active-track selector (returnHighestIndex): the loudest track at one tick,
    with the incumbent's magnitude multiplied by a bias factor. */
module Selection {

  function Abs(x: int): nat {
    if x < 0 then -x else x
  }

  /** Every track has a sample at tick `index`. */
  predicate Covers(audioArrays: seq<seq<int>>, index: nat) {
    forall c :: 0 <= c < |audioArrays| ==> index < |audioArrays[c]|
  }

  /** The magnitude track `c` is judged by at tick `index`: |x|, multiplied by
      `exceedsBy` when `c` is the current priority track. */
  function Weight(audioArrays: seq<seq<int>>, index: nat, currentPriority: nat, exceedsBy: nat, c: nat): nat
    requires c < |audioArrays| && Covers(audioArrays, index)
  {
    if c == currentPriority then Abs(audioArrays[c][index]) * exceedsBy
    else Abs(audioArrays[c][index])
  }

  /** Track `r` has the largest weight, and every track before it a smaller one:
      `r` is the first weighted maximum. */
  predicate FirstWeightedMax(audioArrays: seq<seq<int>>, index: nat, currentPriority: nat, exceedsBy: nat, r: nat)
    requires r < |audioArrays| && Covers(audioArrays, index)
  {
    && (forall c :: 0 <= c < |audioArrays| ==>
          Weight(audioArrays, index, currentPriority, exceedsBy, c)
            <= Weight(audioArrays, index, currentPriority, exceedsBy, r))
    && (forall c :: 0 <= c < r ==>
          Weight(audioArrays, index, currentPriority, exceedsBy, c)
            < Weight(audioArrays, index, currentPriority, exceedsBy, r))
  }

  /** The pair (returnIndex, maxVal) after the loop has looked at tracks 0 .. n-1. */
  function Leader(audioArrays: seq<seq<int>>, index: nat, currentPriority: nat, exceedsBy: nat, n: nat): (best: (nat, nat))
    requires n <= |audioArrays| && Covers(audioArrays, index)
    ensures n > 0 ==> best.0 < n
  {
    if n == 0 then (0, 0)
    else
      var best := Leader(audioArrays, index, currentPriority, exceedsBy, n - 1);
      var w := Weight(audioArrays, index, currentPriority, exceedsBy, n - 1);
      if w > best.1 then (n - 1, w) else best
  }

  /** maxVal is the weight of returnIndex and the largest weight seen so far, and
      every track before returnIndex weighs strictly less: the strict `>` keeps the
      first maximum. */
  lemma {:induction false} LeaderIsFirstMax(audioArrays: seq<seq<int>>, index: nat, currentPriority: nat, exceedsBy: nat, n: nat)
    requires n <= |audioArrays| && Covers(audioArrays, index)
    ensures var best := Leader(audioArrays, index, currentPriority, exceedsBy, n);
      && (n > 0 ==> best.1 == Weight(audioArrays, index, currentPriority, exceedsBy, best.0))
      && (forall c :: 0 <= c < n ==> Weight(audioArrays, index, currentPriority, exceedsBy, c) <= best.1)
      && (forall c :: 0 <= c < best.0 ==> Weight(audioArrays, index, currentPriority, exceedsBy, c) < best.1)
  {
    if n > 0 {
      LeaderIsFirstMax(audioArrays, index, currentPriority, exceedsBy, n - 1);
    }
  }

  /** The track returnHighestIndex picks. */
  function Winner(audioArrays: seq<seq<int>>, index: nat, currentPriority: nat, exceedsBy: nat): (r: nat)
    requires Covers(audioArrays, index)
    ensures |audioArrays| == 0 ==> r == 0
    ensures |audioArrays| > 0 ==> r < |audioArrays|
  {
    Leader(audioArrays, index, currentPriority, exceedsBy, |audioArrays|).0
  }

  /** The winner has the largest weight, and every track before it a smaller one. */
  lemma WinnerIsFirstWeightedMax(audioArrays: seq<seq<int>>, index: nat, currentPriority: nat, exceedsBy: nat)
    requires |audioArrays| > 0 && Covers(audioArrays, index)
    ensures FirstWeightedMax(audioArrays, index, currentPriority, exceedsBy, Winner(audioArrays, index, currentPriority, exceedsBy))
  {
    LeaderIsFirstMax(audioArrays, index, currentPriority, exceedsBy, |audioArrays|);
  }

  /** When every track is silent at this tick, track 0 wins: the incumbent does not
      keep the picture by default. */
  lemma SilenceElectsFirstTrack(audioArrays: seq<seq<int>>, index: nat, currentPriority: nat, exceedsBy: nat)
    requires Covers(audioArrays, index)
    requires forall c :: 0 <= c < |audioArrays| ==> audioArrays[c][index] == 0
    ensures Winner(audioArrays, index, currentPriority, exceedsBy) == 0
  {
    if |audioArrays| > 0 {
      var best := Leader(audioArrays, index, currentPriority, exceedsBy, |audioArrays|);
      LeaderIsFirstMax(audioArrays, index, currentPriority, exceedsBy, |audioArrays|);
      assert Weight(audioArrays, index, currentPriority, exceedsBy, best.0) == 0;
      assert Weight(audioArrays, index, currentPriority, exceedsBy, 0) == 0;
    }
  }

  /** The first weighted maximum is unique, so it pins the winner down. */
  lemma FirstWeightedMaxIsWinner(audioArrays: seq<seq<int>>, index: nat, currentPriority: nat, exceedsBy: nat, r: nat)
    requires r < |audioArrays| && Covers(audioArrays, index)
    requires FirstWeightedMax(audioArrays, index, currentPriority, exceedsBy, r)
    ensures r == Winner(audioArrays, index, currentPriority, exceedsBy)
  {
    var w := Winner(audioArrays, index, currentPriority, exceedsBy);
    WinnerIsFirstWeightedMax(audioArrays, index, currentPriority, exceedsBy);
    assert FirstWeightedMax(audioArrays, index, currentPriority, exceedsBy, w);
  }

  /** returnHighestIndex (main.py:70-82). */
  method ReturnHighestIndex(audioArrays: seq<seq<int>>, index: nat, currentPriority: nat, exceedsBy: nat)
    returns (returnIndex: nat)
    requires Covers(audioArrays, index)
    ensures |audioArrays| > 0 ==> returnIndex < |audioArrays|
    ensures |audioArrays| > 0 ==> FirstWeightedMax(audioArrays, index, currentPriority, exceedsBy, returnIndex)
    ensures returnIndex == Winner(audioArrays, index, currentPriority, exceedsBy)
  {
    var maxVal: nat := 0;
    returnIndex := 0;
    for c := 0 to |audioArrays|
      invariant (returnIndex, maxVal) == Leader(audioArrays, index, currentPriority, exceedsBy, c)
    {
      if c != currentPriority {
        if Abs(audioArrays[c][index]) > maxVal {
          maxVal := Abs(audioArrays[c][index]);
          returnIndex := c;
        }
      } else {
        if Abs(audioArrays[c][index]) * exceedsBy > maxVal {
          maxVal := Abs(audioArrays[c][index]) * exceedsBy;
          returnIndex := c;
        }
      }
    }
    LeaderIsFirstMax(audioArrays, index, currentPriority, exceedsBy, |audioArrays|);
  }
}
