/** The hysteresis filter (compareAudioArrays): a challenger must be the loudest
    track on THRESHOLD consecutive ticks before it replaces the incumbent. */
module Hysteresis {
  import opened Alignment
  import opened Selection

  /** The three variables compareAudioArrays carries from tick to tick:
      priorityArray (the incumbent), prevArray (the candidate) and consecutiveCount. */
  datatype State = State(incumbent: nat, candidate: nat, count: nat)

  const Initial := State(0, 0, 0)

  /** One tick of the loop body, given that tick's instantaneous winner. */
  function Tick(s: State, winner: nat, threshold: nat): State {
    var s' := if winner != s.candidate then s.(candidate := winner, count := 1)
              else s.(count := s.count + 1);
    if s'.count >= threshold then s'.(incumbent := winner) else s'
  }

  /** The number of ticks: every signal has this length. */
  function Ticks(audioArrays: seq<seq<int>>): nat
    requires Aligned(audioArrays)
  {
    |audioArrays[0]|
  }

  /** The state after the loop has handled ticks 0 .. n-1. */
  function StateAfter(audioArrays: seq<seq<int>>, threshold: nat, exceedsBy: nat, n: nat): (s: State)
    requires Aligned(audioArrays) && n <= Ticks(audioArrays)
    ensures s.incumbent < |audioArrays| && s.candidate < |audioArrays|
  {
    if n == 0 then Initial
    else
      var s := StateAfter(audioArrays, threshold, exceedsBy, n - 1);
      Tick(s, Winner(audioArrays, n - 1, s.incumbent, exceedsBy), threshold)
  }

  /** The incumbent before tick t: the previous output, or 0 before the first tick. */
  function Prior(out: seq<nat>, t: nat): nat
    requires t <= |out|
  {
    if t == 0 then 0 else out[t - 1]
  }

  /** The output of compareAudioArrays: the incumbent after each tick. */
  function Incumbents(audioArrays: seq<seq<int>>, threshold: nat, exceedsBy: nat): (out: seq<nat>)
    requires Aligned(audioArrays)
    ensures |out| == Ticks(audioArrays)
    ensures forall t :: 0 <= t < |out| ==> out[t] < |audioArrays|
  {
    seq(Ticks(audioArrays), t requires 0 <= t < Ticks(audioArrays) =>
      StateAfter(audioArrays, threshold, exceedsBy, t + 1).incumbent)
  }

  /** The instantaneous winner at tick t, judged with the incumbent of that tick
      (which is the previous output, by PriorIsIncumbent). */
  function WinnerAt(audioArrays: seq<seq<int>>, threshold: nat, exceedsBy: nat, t: nat): nat
    requires Aligned(audioArrays) && t < Ticks(audioArrays)
  {
    Winner(audioArrays, t, StateAfter(audioArrays, threshold, exceedsBy, t).incumbent, exceedsBy)
  }

  /** The incumbent before tick t is the state's incumbent after t ticks. */
  lemma PriorIsIncumbent(audioArrays: seq<seq<int>>, threshold: nat, exceedsBy: nat, t: nat)
    requires Aligned(audioArrays) && t <= Ticks(audioArrays)
    ensures Prior(Incumbents(audioArrays, threshold, exceedsBy), t)
              == StateAfter(audioArrays, threshold, exceedsBy, t).incumbent
  {
  }

  /** One more tick is one more step of the loop body. */
  lemma StateAfterStep(audioArrays: seq<seq<int>>, threshold: nat, exceedsBy: nat, n: nat)
    requires Aligned(audioArrays) && n < Ticks(audioArrays)
    ensures var s := StateAfter(audioArrays, threshold, exceedsBy, n);
      StateAfter(audioArrays, threshold, exceedsBy, n + 1) == Tick(s, Winner(audioArrays, n, s.incumbent, exceedsBy), threshold)
  {
  }

  /** The candidate has been the instantaneous winner on each of the last `count`
      ticks. */
  lemma {:induction false} CandidateStreak(audioArrays: seq<seq<int>>, threshold: nat, exceedsBy: nat, n: nat)
    requires Aligned(audioArrays) && n <= Ticks(audioArrays)
    ensures var s := StateAfter(audioArrays, threshold, exceedsBy, n);
      s.count <= n &&
      forall t :: n - s.count <= t < n ==> WinnerAt(audioArrays, threshold, exceedsBy, t) == s.candidate
  {
    if n > 0 {
      var s0 := StateAfter(audioArrays, threshold, exceedsBy, n - 1);
      var s := StateAfter(audioArrays, threshold, exceedsBy, n);
      CandidateStreak(audioArrays, threshold, exceedsBy, n - 1);
      StateAfterStep(audioArrays, threshold, exceedsBy, n - 1);
      assert s == Tick(s0, WinnerAt(audioArrays, threshold, exceedsBy, n - 1), threshold);
    }
  }

  /** Hysteresis gating: when the incumbent changes at tick t, the new incumbent was
      the instantaneous winner on tick t and on each of the THRESHOLD ticks ending
      at t, which therefore all exist. */
  lemma SwitchNeedsThresholdWins(audioArrays: seq<seq<int>>, threshold: nat, exceedsBy: nat, t: nat)
    requires Aligned(audioArrays) && t < Ticks(audioArrays)
    requires Incumbents(audioArrays, threshold, exceedsBy)[t] != Prior(Incumbents(audioArrays, threshold, exceedsBy), t)
    ensures t + 1 >= threshold
    ensures WinnerAt(audioArrays, threshold, exceedsBy, t) == Incumbents(audioArrays, threshold, exceedsBy)[t]
    ensures forall s :: t + 1 - threshold <= s <= t ==>
              WinnerAt(audioArrays, threshold, exceedsBy, s) == Incumbents(audioArrays, threshold, exceedsBy)[t]
  {
    CandidateStreak(audioArrays, threshold, exceedsBy, t + 1);
    PriorIsIncumbent(audioArrays, threshold, exceedsBy, t);
  }

  /** A track that was the instantaneous winner on each of the last k ticks up to
      tick t is the candidate afterwards, with a count of at least k. */
  lemma {:induction false} StreakBuildsCount(audioArrays: seq<seq<int>>, threshold: nat, exceedsBy: nat, t: nat, c: nat, k: nat)
    requires Aligned(audioArrays) && t < Ticks(audioArrays) && 1 <= k <= t + 1
    requires forall s :: t + 1 - k <= s <= t ==> WinnerAt(audioArrays, threshold, exceedsBy, s) == c
    ensures StateAfter(audioArrays, threshold, exceedsBy, t + 1).candidate == c
    ensures StateAfter(audioArrays, threshold, exceedsBy, t + 1).count >= k
  {
    StateAfterStep(audioArrays, threshold, exceedsBy, t);
    assert WinnerAt(audioArrays, threshold, exceedsBy, t) == c;
    if k >= 2 {
      StreakBuildsCount(audioArrays, threshold, exceedsBy, t - 1, c, k - 1);
    }
  }

  /** The converse of the gating: a track that was the instantaneous winner on each
      of the THRESHOLD ticks ending at t is the incumbent after tick t. */
  lemma ThresholdWinsSwitch(audioArrays: seq<seq<int>>, threshold: nat, exceedsBy: nat, t: nat, c: nat)
    requires Aligned(audioArrays) && t < Ticks(audioArrays) && 1 <= threshold <= t + 1
    requires forall s :: t + 1 - threshold <= s <= t ==> WinnerAt(audioArrays, threshold, exceedsBy, s) == c
    ensures Incumbents(audioArrays, threshold, exceedsBy)[t] == c
  {
    StreakBuildsCount(audioArrays, threshold, exceedsBy, t, c, threshold);
    StateAfterStep(audioArrays, threshold, exceedsBy, t);
    assert WinnerAt(audioArrays, threshold, exceedsBy, t) == c;
  }

  /** No switch can happen in the first THRESHOLD - 1 ticks: the output stays 0. */
  lemma {:induction false} SilentBeforeThreshold(audioArrays: seq<seq<int>>, threshold: nat, exceedsBy: nat, t: nat)
    requires Aligned(audioArrays) && t < Ticks(audioArrays) && t + 1 < threshold
    ensures Incumbents(audioArrays, threshold, exceedsBy)[t] == 0
  {
    var out := Incumbents(audioArrays, threshold, exceedsBy);
    if out[t] != Prior(out, t) {
      SwitchNeedsThresholdWins(audioArrays, threshold, exceedsBy, t);
      assert false;
    }
    if t > 0 {
      SilentBeforeThreshold(audioArrays, threshold, exceedsBy, t - 1);
    }
  }

  /** Each tick either keeps the previous incumbent or hands over to that tick's
      instantaneous winner. */
  lemma KeepsOrFollowsWinner(audioArrays: seq<seq<int>>, threshold: nat, exceedsBy: nat, t: nat)
    requires Aligned(audioArrays) && t < Ticks(audioArrays)
    ensures var out := Incumbents(audioArrays, threshold, exceedsBy);
      out[t] == Prior(out, t) || out[t] == Winner(audioArrays, t, Prior(out, t), exceedsBy)
  {
    var out := Incumbents(audioArrays, threshold, exceedsBy);
    if out[t] != Prior(out, t) {
      SwitchNeedsThresholdWins(audioArrays, threshold, exceedsBy, t);
      PriorIsIncumbent(audioArrays, threshold, exceedsBy, t);
    }
  }

  /** With THRESHOLD = 1 (or 0) there is no debouncing: every tick's output is the
      instantaneous winner judged against the previous output. */
  lemma ThresholdOneFollowsWinner(audioArrays: seq<seq<int>>, threshold: nat, exceedsBy: nat, t: nat)
    requires Aligned(audioArrays) && t < Ticks(audioArrays) && threshold <= 1
    ensures var out := Incumbents(audioArrays, threshold, exceedsBy);
      out[t] == Winner(audioArrays, t, Prior(out, t), exceedsBy)
  {
    PriorIsIncumbent(audioArrays, threshold, exceedsBy, t);
    StateAfterStep(audioArrays, threshold, exceedsBy, t);
  }

  /** A run's output is pinned down by the incumbent after each tick. */
  lemma IncumbentsFromStates(audioArrays: seq<seq<int>>, threshold: nat, exceedsBy: nat, expected: seq<nat>)
    requires Aligned(audioArrays) && |expected| == Ticks(audioArrays)
    requires forall t :: 0 <= t < |expected| ==>
               StateAfter(audioArrays, threshold, exceedsBy, t + 1).incumbent == expected[t]
    ensures Incumbents(audioArrays, threshold, exceedsBy) == expected
  {
  }

  /** Appending the incumbent after the next tick extends a recorded prefix of
      incumbents by one. */
  lemma RecordIncumbent(audioArrays: seq<seq<int>>, threshold: nat, exceedsBy: nat, out: seq<nat>, x: nat)
    requires Aligned(audioArrays) && |out| < Ticks(audioArrays)
    requires forall t :: 0 <= t < |out| ==> out[t] == StateAfter(audioArrays, threshold, exceedsBy, t + 1).incumbent
    requires x == StateAfter(audioArrays, threshold, exceedsBy, |out| + 1).incumbent
    ensures forall t :: 0 <= t < |out| + 1 ==>
              (out + [x])[t] == StateAfter(audioArrays, threshold, exceedsBy, t + 1).incumbent
  {
  }

  /** The loop of compareAudioArrays (main.py:37-57) over signals already aligned. */
  method ScanIncumbents(audioArrays: seq<seq<int>>, threshold: nat, exceedsBy: nat)
    returns (outputArray: seq<nat>)
    requires Aligned(audioArrays)
    ensures |outputArray| == |audioArrays[0]|
    ensures forall t :: 0 <= t < |outputArray| ==> outputArray[t] < |audioArrays|
    ensures outputArray == Incumbents(audioArrays, threshold, exceedsBy)
  {
    var priorityArray: nat := 0;
    var prevArray: nat := 0;
    var consecutiveCount: nat := 0;
    var counter := 0;
    outputArray := [];
    while counter < |audioArrays[0]|
      invariant counter <= |audioArrays[0]| && |outputArray| == counter
      invariant StateAfter(audioArrays, threshold, exceedsBy, counter)
                  == State(priorityArray, prevArray, consecutiveCount)
      invariant forall t :: 0 <= t < counter ==>
                  outputArray[t] == StateAfter(audioArrays, threshold, exceedsBy, t + 1).incumbent
    {
      ghost var before := State(priorityArray, prevArray, consecutiveCount);
      var consecutiveArray := ReturnHighestIndex(audioArrays, counter, priorityArray, exceedsBy);
      StateAfterStep(audioArrays, threshold, exceedsBy, counter);
      if consecutiveArray != prevArray {
        prevArray := consecutiveArray;
        consecutiveCount := 1;
      } else {
        consecutiveCount := consecutiveCount + 1;
      }
      if consecutiveCount >= threshold {
        priorityArray := consecutiveArray;
      }
      assert State(priorityArray, prevArray, consecutiveCount) == Tick(before, consecutiveArray, threshold);
      RecordIncumbent(audioArrays, threshold, exceedsBy, outputArray, priorityArray);
      outputArray := outputArray + [priorityArray];
      counter := counter + 1;
    }
    IncumbentsFromStates(audioArrays, threshold, exceedsBy, outputArray);
  }

  /** compareAudioArrays (main.py:36-62) without the debug dump: aligns the callers'
      tracks in place, then runs the hysteresis loop over them. */
  method CompareAudioArrays(audioArrays: seq<Track>, threshold: nat, exceedsBy: nat)
    returns (outputArray: seq<nat>)
    requires |audioArrays| >= 1
    modifies audioArrays
    ensures Contents(audioArrays) == Normalized(old(Contents(audioArrays)))
    ensures outputArray == Incumbents(Normalized(old(Contents(audioArrays))), threshold, exceedsBy)
  {
    var arrays := NormalizeArrays(audioArrays);
    outputArray := ScanIncumbents(Contents(arrays), threshold, exceedsBy);
  }
}
