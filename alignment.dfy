/** The track aligner (normalizeArrays): pads every decision signal with trailing
    silence up to the length of the longest one, in place. */
module Alignment {

  /** A decision signal held in a growable list that normalizeArrays extends in place. */
  class Track {
    var samples: seq<int>

    constructor (samples: seq<int>)
      ensures this.samples == samples
    {
      this.samples := samples;
    }

    /** list.append */
    method Append(x: int)
      modifies this
      ensures samples == old(samples) + [x]
    {
      samples := samples + [x];
    }
  }

  /** The signals the tracks currently hold, in order. */
  function Contents(tracks: seq<Track>): seq<seq<int>>
    reads tracks
  {
    seq(|tracks|, i requires 0 <= i < |tracks| reads tracks => tracks[i].samples)
  }

  /** The length of the longest signal; 0 when there is none. */
  function MaxLength(signals: seq<seq<int>>): (m: nat)
    ensures forall i :: 0 <= i < |signals| ==> |signals[i]| <= m
    ensures signals == [] ==> m == 0
    ensures signals != [] ==> exists i :: 0 <= i < |signals| && |signals[i]| == m
  {
    if signals == [] then 0
    else
      var m := MaxLength(signals[..|signals| - 1]);
      if |signals[|signals| - 1]| > m then |signals[|signals| - 1]| else m
  }

  /** `s` followed by silence up to length `n`. */
  function Padded(s: seq<int>, n: nat): seq<int>
    requires |s| <= n
  {
    s + seq(n - |s|, _ => 0)
  }

  /** `t` is `s` with zero or more zeros appended. */
  predicate ZeroExtends(s: seq<int>, t: seq<int>) {
    |s| <= |t| && t[..|s|] == s && forall k :: |s| <= k < |t| ==> t[k] == 0
  }

  /** All signals have the same length, and there is at least one. */
  predicate Aligned(signals: seq<seq<int>>) {
    |signals| >= 1 && forall c :: 0 <= c < |signals| ==> |signals[c]| == |signals[0]|
  }

  /** What normalizeArrays leaves in the tracks: each signal padded with silence
      to the longest length. */
  function Normalized(signals: seq<seq<int>>): (r: seq<seq<int>>)
    ensures |r| == |signals|
    ensures forall i :: 0 <= i < |r| ==> |r[i]| == MaxLength(signals) && ZeroExtends(signals[i], r[i])
    ensures |signals| >= 1 ==> Aligned(r)
  {
    var n := MaxLength(signals);
    seq(|signals|, i requires 0 <= i < |signals| => Padded(signals[i], n))
  }

  lemma AppendZeroExtends(s: seq<int>, t: seq<int>)
    requires ZeroExtends(s, t)
    ensures ZeroExtends(s, t + [0])
  {
    assert (t + [0])[..|s|] == t[..|s|];
  }

  /** A zero-extension of the right length is the padded signal. */
  lemma ZeroExtensionIsPadding(s: seq<int>, t: seq<int>, n: nat)
    requires ZeroExtends(s, t) && |t| == n
    ensures t == Padded(s, n)
  {
    assert forall k :: 0 <= k < n ==> t[k] == Padded(s, n)[k];
  }

  /** Padding only ever extends: aligning aligned signals changes nothing, and
      aligning twice is aligning once. */
  lemma {:induction false} NormalizedIdempotent(signals: seq<seq<int>>)
    ensures Normalized(Normalized(signals)) == Normalized(signals)
  {
    var once := Normalized(signals);
    var twice := Normalized(once);
    if signals != [] {
      assert MaxLength(once) == MaxLength(signals);
      forall i | 0 <= i < |once|
        ensures twice[i] == once[i]
      {
        ZeroExtensionIsPadding(once[i], once[i], MaxLength(once));
      }
    }
  }

  lemma ZeroExtendsTransitive(s: seq<int>, t: seq<int>, u: seq<int>)
    requires ZeroExtends(s, t) && ZeroExtends(t, u)
    ensures ZeroExtends(s, u)
  {
    assert u[..|s|] == u[..|t|][..|s|];
  }

  /** The inner loop of normalizeArrays (main.py:97-98): append `count` zeros. */
  method AppendZeros(track: Track, count: nat)
    modifies track
    ensures ZeroExtends(old(track.samples), track.samples)
    ensures |track.samples| == |old(track.samples)| + count
  {
    for c := 0 to count
      invariant ZeroExtends(old(track.samples), track.samples)
      invariant |track.samples| == |old(track.samples)| + c
    {
      AppendZeroExtends(old(track.samples), track.samples);
      track.Append(0);
    }
  }

  /** The first loop of normalizeArrays (main.py:91-94): the longest length. */
  method LongestLength(audioArrays: seq<Track>) returns (maxArrayLen: nat)
    ensures maxArrayLen == MaxLength(Contents(audioArrays))
  {
    ghost var original := Contents(audioArrays);
    maxArrayLen := 0;
    for i := 0 to |audioArrays|
      invariant maxArrayLen == MaxLength(original[..i])
    {
      assert original[..i + 1][..i] == original[..i];
      if |audioArrays[i].samples| > maxArrayLen {
        maxArrayLen := |audioArrays[i].samples|;
      }
    }
    assert original[..|audioArrays|] == original;
  }

  /** The second loop of normalizeArrays (main.py:95-99): pads every track to
      `maxArrayLen` and collects the tracks, in order. The same track may occur more
      than once; it is then padded when first met. */
  method PadAll(audioArrays: seq<Track>, maxArrayLen: nat) returns (outputArray: seq<Track>)
    requires forall j :: 0 <= j < |audioArrays| ==> |audioArrays[j].samples| <= maxArrayLen
    modifies audioArrays
    ensures outputArray == audioArrays
    ensures forall j :: 0 <= j < |audioArrays| ==>
              ZeroExtends(old(audioArrays[j].samples), audioArrays[j].samples)
    ensures forall j :: 0 <= j < |audioArrays| ==> |audioArrays[j].samples| == maxArrayLen
  {
    ghost var original := Contents(audioArrays);
    outputArray := [];
    for i := 0 to |audioArrays|
      invariant outputArray == audioArrays[..i]
      invariant forall j :: 0 <= j < |audioArrays| ==>
                  ZeroExtends(original[j], audioArrays[j].samples) && |audioArrays[j].samples| <= maxArrayLen
      invariant forall j :: 0 <= j < i ==> |audioArrays[j].samples| == maxArrayLen
    {
      var track := audioArrays[i];
      label before:
      AppendZeros(track, maxArrayLen - |track.samples|);
      forall j | 0 <= j < |audioArrays|
        ensures ZeroExtends(original[j], audioArrays[j].samples)
        ensures |audioArrays[j].samples| <= maxArrayLen
        ensures j <= i ==> |audioArrays[j].samples| == maxArrayLen
      {
        if audioArrays[j] == track {
          ZeroExtendsTransitive(original[j], old@before(track.samples), track.samples);
        } else {
          assert audioArrays[j].samples == old@before(audioArrays[j].samples);
        }
      }
      outputArray := outputArray + [track];
    }
  }

  /** normalizeArrays (main.py:88-100). Appends zeros to each caller's track until
      all have the longest length and returns the same tracks, in order. */
  method NormalizeArrays(audioArrays: seq<Track>) returns (outputArray: seq<Track>)
    modifies audioArrays
    ensures outputArray == audioArrays
    ensures Contents(audioArrays) == Normalized(old(Contents(audioArrays)))
  {
    ghost var original := Contents(audioArrays);
    var maxArrayLen := LongestLength(audioArrays);
    assert forall j :: 0 <= j < |audioArrays| ==> |audioArrays[j].samples| == |original[j]|;
    outputArray := PadAll(audioArrays, maxArrayLen);
    forall j | 0 <= j < |audioArrays|
      ensures audioArrays[j].samples == Normalized(original)[j]
    {
      ZeroExtensionIsPadding(original[j], audioArrays[j].samples, maxArrayLen);
    }
  }
}
