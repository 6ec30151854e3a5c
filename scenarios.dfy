/** A worked run of the hysteresis filter: two speakers who take turns. */
module Scenarios {
  import opened Alignment
  import opened Selection
  import opened Hysteresis

  /** Track 0 is loud for three ticks, then track 1 is loud for three ticks. */
  const TakingTurns: seq<seq<int>> := [[10, 10, 10, 1, 1, 1], [1, 1, 1, 10, 10, 10]]

  lemma TakingTurnsFirstHalf()
    ensures Aligned(TakingTurns)
    ensures StateAfter(TakingTurns, 2, 1, 1) == State(0, 0, 1)
    ensures StateAfter(TakingTurns, 2, 1, 2) == State(0, 0, 2)
    ensures StateAfter(TakingTurns, 2, 1, 3) == State(0, 0, 3)
  {
    var a := TakingTurns;
    assert Winner(a, 0, 0, 1) == 0 by { assert Leader(a, 0, 0, 1, 1) == (0, 10); }
    assert StateAfter(a, 2, 1, 1) == State(0, 0, 1);
    assert Winner(a, 1, 0, 1) == 0 by { assert Leader(a, 1, 0, 1, 1) == (0, 10); }
    assert StateAfter(a, 2, 1, 2) == State(0, 0, 2);
    assert Winner(a, 2, 0, 1) == 0 by { assert Leader(a, 2, 0, 1, 1) == (0, 10); }
  }

  lemma TakingTurnsSecondHalf()
    ensures Aligned(TakingTurns)
    ensures StateAfter(TakingTurns, 2, 1, 4) == State(0, 1, 1)
    ensures StateAfter(TakingTurns, 2, 1, 5) == State(1, 1, 2)
    ensures StateAfter(TakingTurns, 2, 1, 6) == State(1, 1, 3)
  {
    var a := TakingTurns;
    TakingTurnsFirstHalf();
    assert Winner(a, 3, 0, 1) == 1 by { assert Leader(a, 3, 0, 1, 1) == (0, 1); }
    assert StateAfter(a, 2, 1, 4) == State(0, 1, 1);
    assert Winner(a, 4, 0, 1) == 1 by { assert Leader(a, 4, 0, 1, 1) == (0, 1); }
    assert StateAfter(a, 2, 1, 5) == State(1, 1, 2);
    assert Winner(a, 5, 1, 1) == 1 by { assert Leader(a, 5, 1, 1, 1) == (0, 1); }
  }

  /** With THRESHOLD = 2 and no bias, track 1 first wins at tick 3 but only takes
      over at tick 4, its second consecutive win. */
  lemma TakingTurnsSwitchesAtSecondWin()
    ensures Aligned(TakingTurns)
    ensures Incumbents(TakingTurns, 2, 1) == [0, 0, 0, 0, 1, 1]
  {
    TakingTurnsFirstHalf();
    TakingTurnsSecondHalf();
    var expected: seq<nat> := [0, 0, 0, 0, 1, 1];
    forall t | 0 <= t < 6
      ensures StateAfter(TakingTurns, 2, 1, t + 1).incumbent == expected[t]
    {
    }
    IncumbentsFromStates(TakingTurns, 2, 1, expected);
  }
}
