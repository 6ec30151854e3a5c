/** The main script (main.py:104-133) without its media work: downsample every
    decoded input, pick the incumbent per tick, and cut the timeline into clips. */
module Editor {
  import opened Downsampling
  import opened Alignment
  import opened Hysteresis
  import opened Segments

  /** What wavfile.read returns for one input file: its rate and its frames. */
  datatype Decoded = Decoded(audioRate: nat, audioArray: seq<Frame>)

  predicate Decodable(inputs: seq<Decoded>) {
    forall i :: 0 <= i < |inputs| ==> HasChannel(inputs[i].audioArray)
  }

  /** Downsampling of input i. */
  function SignalOf(inputs: seq<Decoded>, sampleRate: nat, i: nat): Result<seq<int>>
    requires sampleRate >= 1 && Decodable(inputs) && i < |inputs|
  {
    Downsample(inputs[i].audioRate, inputs[i].audioArray, sampleRate)
  }

  /** The decision signals of all inputs, when every one downsamples. */
  function Signals(inputs: seq<Decoded>, sampleRate: nat): seq<seq<int>>
    requires sampleRate >= 1 && Decodable(inputs)
    requires forall i :: 0 <= i < |inputs| ==> SignalOf(inputs, sampleRate, i).Success?
  {
    seq(|inputs|, i requires 0 <= i < |inputs| => SignalOf(inputs, sampleRate, i).value)
  }

  /** A downsampled signal holds at least one sample, so the timeline is never empty. */
  lemma TimelineNotEmpty(inputs: seq<Decoded>, sampleRate: nat, threshold: nat, exceedsBy: nat)
    requires |inputs| >= 1 && sampleRate >= 1 && Decodable(inputs)
    requires forall i :: 0 <= i < |inputs| ==> SignalOf(inputs, sampleRate, i).Success?
    ensures |Incumbents(Normalized(Signals(inputs, sampleRate)), threshold, exceedsBy)| >= 1
  {
    var signals := Signals(inputs, sampleRate);
    assert |signals[0]| >= 1;
    assert |Normalized(signals)[0]| >= 1;
  }

  /** The clip list the script hands to concatenate_videoclips, in ticks. Fails with
      the first input's error when an input does not downsample; otherwise the
      timeline has at least one tick (a downsampled signal is never empty), and the
      clips tile it, alternate, and decode to the incumbent of every tick. */
  method SelectSegments(inputs: seq<Decoded>, sampleRate: nat, threshold: nat, exceedsBy: nat)
    returns (r: Result<seq<Segment>>)
    requires |inputs| >= 1 && sampleRate >= 1 && Decodable(inputs)
    ensures r.Failure? ==>
              exists i :: && 0 <= i < |inputs|
                          && (forall j :: 0 <= j < i ==> SignalOf(inputs, sampleRate, j).Success?)
                          && SignalOf(inputs, sampleRate, i) == Failure(r.error)
    ensures r.Success? ==> forall i :: 0 <= i < |inputs| ==> SignalOf(inputs, sampleRate, i).Success?
    ensures r.Success? ==>
              var out := Incumbents(Normalized(Signals(inputs, sampleRate)), threshold, exceedsBy);
              |out| >= 1 && Tiles(r.value, |out|) && Alternates(r.value) && Decode(r.value) == out
  {
    var audioDataArrays: seq<Track> := [];
    for i := 0 to |inputs|
      invariant |audioDataArrays| == i
      invariant forall j :: 0 <= j < i ==> SignalOf(inputs, sampleRate, j).Success?
      invariant forall j :: 0 <= j < i ==> fresh(audioDataArrays[j])
      invariant forall j :: 0 <= j < i ==> audioDataArrays[j].samples == SignalOf(inputs, sampleRate, j).value
    {
      var parsed := ParseAudioData(inputs[i].audioRate, inputs[i].audioArray, sampleRate);
      if parsed.Failure? {
        assert SignalOf(inputs, sampleRate, i) == Failure(parsed.error);
        return Failure(parsed.error);
      }
      var track := new Track(parsed.value);
      audioDataArrays := audioDataArrays + [track];
    }
    assert Contents(audioDataArrays) == Signals(inputs, sampleRate);
    var outputArray := CompareAudioArrays(audioDataArrays, threshold, exceedsBy);
    var clips := BuildSegments(outputArray, sampleRate);
    TimelineNotEmpty(inputs, sampleRate, threshold, exceedsBy);
    DecodeReproduces(clips, outputArray);
    return Success(clips);
  }
}
