/** The downsampler (parseAudioData): turns one decoded WAV file into a
    decision signal with one raw sample per decision tick. */
module Downsampling {

  /** Why parseAudioData produces no signal. */
  datatype ParseError =
    | OutOfRange(index: nat)   // the loop read audioArray[index] past the last frame
    | NoProgress               // the divider is 0, so the loop never advances

  datatype Result<T> = Success(value: T) | Failure(error: ParseError)

  /** One frame of a decoded WAV file: one sample per channel. */
  type Frame = seq<int>

  /** Every frame has a first channel (the decoder is asked for two channels). */
  predicate HasChannel(audioArray: seq<Frame>) {
    forall k :: 0 <= k < |audioArray| ==> |audioArray[k]| >= 1
  }

  /** How many native samples make one decision tick: floor(audioRate / sampleRate). */
  function Divider(audioRate: nat, sampleRate: nat): nat
    requires sampleRate >= 1
  {
    audioRate / sampleRate
  }

  /** What parseAudioData computes, in closed form: the first channel of the frames
      0, d, 2d, ... while the index stays within the loop bound `<= len`. */
  function Downsample(audioRate: nat, audioArray: seq<Frame>, sampleRate: nat): Result<seq<int>>
    requires sampleRate >= 1 && HasChannel(audioArray)
  {
    var d := Divider(audioRate, sampleRate);
    var n := |audioArray|;
    if d == 0 then
      if n == 0 then Failure(OutOfRange(0)) else Failure(NoProgress)
    else if n % d == 0 then
      Failure(OutOfRange(n))
    else
      Success(seq(n / d + 1, k requires 0 <= k < n / d + 1 =>
        MultipleInRange(k, d, n); audioArray[k * d][0]))
  }

  /** Every multiple k * d with k <= n / d lies below n when d does not divide n. */
  lemma MultipleInRange(k: nat, d: nat, n: nat)
    requires d >= 1 && n % d != 0 && k <= n / d
    ensures k * d < n
  {
    MulLeq(k, n / d, d);
  }

  lemma MulLeq(a: nat, b: nat, d: nat)
    requires a <= b
    ensures a * d <= b * d
  {
  }

  lemma MulSucc(a: nat, d: nat)
    ensures (a + 1) * d == a * d + d
  {
  }

  /** If n lies strictly between two consecutive multiples of d, then d does not
      divide n and n / d is the smaller one's factor. */
  lemma {:induction false} BetweenMultiples(n: nat, d: nat, m: nat)
    requires d >= 1 && m >= 1
    requires (m - 1) * d < n < m * d
    ensures n % d != 0 && n / d == m - 1
  {
    var q, r := n / d, n % d;
    assert n == q * d + r && 0 <= r < d;
    if q < m - 1 {
      MulLeq(q + 1, m - 1, d);
      assert false;
    }
    if q > m - 1 {
      MulLeq(m, q, d);
      assert false;
    }
  }

  /** Quotient and remainder are unique. */
  lemma {:induction false} DivModUnique(n: nat, d: nat, q: nat, r: nat)
    requires d >= 1 && r < d && n == q * d + r
    ensures n / d == q && n % d == r
  {
    var q', r' := n / d, n % d;
    assert n == q' * d + r' && 0 <= r' < d;
    if q' < q {
      MulLeq(q' + 1, q, d);
      assert false;
    }
    if q < q' {
      MulLeq(q + 1, q', d);
      assert false;
    }
  }

  /** A multiple of d leaves no remainder. */
  lemma MultipleHasNoRemainder(m: nat, d: nat)
    requires d >= 1
    ensures (m * d) % d == 0
  {
    DivModUnique(m * d, d, m, 0);
  }

  /** When the counter lands exactly on len, d divides len and downsampling fails
      with the read at index len. */
  lemma ReadAtLengthFails(audioRate: nat, audioArray: seq<Frame>, sampleRate: nat, m: nat)
    requires sampleRate >= 1 && HasChannel(audioArray)
    requires Divider(audioRate, sampleRate) >= 1 && m * Divider(audioRate, sampleRate) == |audioArray|
    ensures Downsample(audioRate, audioArray, sampleRate) == Failure(OutOfRange(|audioArray|))
  {
    MultipleHasNoRemainder(m, Divider(audioRate, sampleRate));
  }

  /** When the counter steps over len, the samples read at 0, d, 2d, ... are the
      whole downsampled signal. */
  lemma CollectedIsDownsample(audioRate: nat, audioArray: seq<Frame>, sampleRate: nat, out: seq<int>)
    requires sampleRate >= 1 && HasChannel(audioArray)
    requires Divider(audioRate, sampleRate) >= 1 && |out| >= 1
    requires (|out| - 1) * Divider(audioRate, sampleRate) < |audioArray| < |out| * Divider(audioRate, sampleRate)
    requires forall k :: 0 <= k < |out| ==>
               k * Divider(audioRate, sampleRate) < |audioArray|
               && out[k] == audioArray[k * Divider(audioRate, sampleRate)][0]
    ensures Downsample(audioRate, audioArray, sampleRate) == Success(out)
  {
    var d, n := Divider(audioRate, sampleRate), |audioArray|;
    BetweenMultiples(n, d, |out|);
    var picked := seq(n / d + 1, k requires 0 <= k < n / d + 1 =>
      MultipleInRange(k, d, n); audioArray[k * d][0]);
    assert Downsample(audioRate, audioArray, sampleRate) == Success(picked);
    assert picked == out;
  }

  /** parseAudioData (main.py:23-30), with the file decoder's result as its input.
      The loop reads audioArray[sampleCounter] while sampleCounter <= len, so the
      read at index len is reported as OutOfRange instead of being made. */
  method ParseAudioData(audioRate: nat, audioArray: seq<Frame>, sampleRate: nat)
    returns (r: Result<seq<int>>)
    requires sampleRate >= 1 && HasChannel(audioArray)
    ensures r == Downsample(audioRate, audioArray, sampleRate)
  {
    var sampleDivider := audioRate / sampleRate;
    if sampleDivider == 0 {
      // the first read is audioArray[0]; after it the counter never moves
      if |audioArray| == 0 {
        return Failure(OutOfRange(0));
      }
      return Failure(NoProgress);
    }
    var outputArray: seq<int> := [];
    var sampleCounter: nat := 0;
    while sampleCounter <= |audioArray|
      invariant sampleCounter == |outputArray| * sampleDivider
      invariant |outputArray| > 0 ==> (|outputArray| - 1) * sampleDivider < |audioArray|
      invariant forall k :: 0 <= k < |outputArray| ==>
                  k * sampleDivider < |audioArray| && outputArray[k] == audioArray[k * sampleDivider][0]
      decreases |audioArray| + 1 - sampleCounter
    {
      if sampleCounter == |audioArray| {
        ReadAtLengthFails(audioRate, audioArray, sampleRate, |outputArray|);
        return Failure(OutOfRange(sampleCounter));
      }
      MulSucc(|outputArray|, sampleDivider);
      outputArray := outputArray + [audioArray[sampleCounter][0]];
      sampleCounter := sampleCounter + sampleDivider;
    }
    CollectedIsDownsample(audioRate, audioArray, sampleRate, outputArray);
    return Success(outputArray);
  }

  /** The loop fails exactly when it would read index len: when the divider is 0
      (and there is at least one frame, it loops forever instead) or divides len. */
  lemma DownsampleFails(audioRate: nat, audioArray: seq<Frame>, sampleRate: nat)
    requires sampleRate >= 1 && HasChannel(audioArray)
    ensures var d := Divider(audioRate, sampleRate);
      Downsample(audioRate, audioArray, sampleRate).Failure? <==> d == 0 || |audioArray| % d == 0
    ensures var d := Divider(audioRate, sampleRate);
      d >= 1 && |audioArray| % d == 0 ==>
        Downsample(audioRate, audioArray, sampleRate) == Failure(OutOfRange(|audioArray|))
  {
  }

  /** On success the signal holds one element per multiple of d below len: the last
      one read lies below len and the next multiple lies beyond it; element k is the
      first channel of frame k * d. */
  lemma {:induction false} DownsampleCoversMultiples(audioRate: nat, audioArray: seq<Frame>, sampleRate: nat)
    requires sampleRate >= 1 && HasChannel(audioArray)
    requires Downsample(audioRate, audioArray, sampleRate).Success?
    ensures var out := Downsample(audioRate, audioArray, sampleRate).value;
      var d := Divider(audioRate, sampleRate);
      |out| >= 1 && (|out| - 1) * d < |audioArray| < |out| * d
    ensures var out := Downsample(audioRate, audioArray, sampleRate).value;
      var d := Divider(audioRate, sampleRate);
      forall k :: 0 <= k < |out| ==> k * d < |audioArray| && out[k] == audioArray[k * d][0]
  {
    var d := Divider(audioRate, sampleRate);
    var n := |audioArray|;
    var m := n / d + 1;
    MultipleInRange(n / d, d, n);
    assert n == (n / d) * d + n % d;
    assert m * d == (n / d) * d + d;
    forall k | 0 <= k < m ensures k * d < n {
      MultipleInRange(k, d, n);
    }
  }

  /** A silent track downsamples to silence. */
  lemma DownsampleSilence(audioRate: nat, audioArray: seq<Frame>, sampleRate: nat)
    requires sampleRate >= 1 && HasChannel(audioArray)
    requires forall k :: 0 <= k < |audioArray| ==> audioArray[k][0] == 0
    requires Downsample(audioRate, audioArray, sampleRate).Success?
    ensures forall k :: 0 <= k < |Downsample(audioRate, audioArray, sampleRate).value| ==>
              Downsample(audioRate, audioArray, sampleRate).value[k] == 0
  {
    DownsampleCoversMultiples(audioRate, audioArray, sampleRate);
  }
}
