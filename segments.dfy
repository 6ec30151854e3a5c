/** The segment builder (main.py:115-133): run-length encodes the per-tick
    incumbent sequence into (track, start tick, end tick) clips. */
module Segments {

  /** A clip of INPUT_FILES[track] from tick `start` to tick `end`; seconds are
      ticks divided by SAMPLE_RATE. */
  datatype Segment = Segment(track: int, start: int, end: int)

  /** What the builder emits for an empty timeline: prevPriority keeps its initial
      -1 (the last input file, by Python's negative indexing), prevEndPt its initial
      -1 second, which is -sampleRate ticks, and the end is tick counter - 1 = -1. */
  function Unstarted(sampleRate: nat): Segment {
    Segment(-1, -(sampleRate as int), -1)
  }

  /** The segments start at tick 0 and each starts where the previous one ends. */
  predicate Contiguous(segs: seq<Segment>) {
    && |segs| >= 1
    && segs[0].start == 0
    && forall i :: 0 <= i < |segs| - 1 ==> segs[i].end == segs[i + 1].start
  }

  /** Contiguous segments covering ticks 0 .. n-1: every segment but the last spans
      at least one tick, and the last one ends at tick n - 1. */
  predicate Tiles(segs: seq<Segment>, n: nat) {
    && Contiguous(segs)
    && (forall i :: 0 <= i < |segs| - 1 ==> segs[i].start < segs[i].end)
    && segs[|segs| - 1].start <= segs[|segs| - 1].end == n - 1
  }

  /** No two adjacent segments show the same track. */
  predicate Alternates(segs: seq<Segment>) {
    forall i :: 0 <= i < |segs| - 1 ==> segs[i].track != segs[i + 1].track
  }

  /** Every tick the segment spans lies in `out`, and `out` there shows its track. */
  predicate Shows(s: Segment, out: seq<nat>) {
    forall t :: s.start <= t < s.end ==> 0 <= t < |out| && out[t] == s.track
  }

  /** Each segment's track is the output at every tick from its start up to (not
      including) its end. */
  predicate RunsAgree(segs: seq<Segment>, out: seq<nat>) {
    forall i :: 0 <= i < |segs| ==> Shows(segs[i], out)
  }

  /** The runs agree with `out`, and the last segment's track is the final output. */
  predicate Agrees(segs: seq<Segment>, out: seq<nat>) {
    && |segs| >= 1 && |out| >= 1
    && RunsAgree(segs, out)
    && out[|out| - 1] == segs[|segs| - 1].track
  }

  /** The ticks a segment spans: end - start, or none if it is inverted. */
  function Span(s: Segment): nat {
    if s.start <= s.end then s.end - s.start else 0
  }

  /** The segments' runs laid end to end. */
  function Runs(segs: seq<Segment>): seq<int> {
    if segs == [] then []
    else
      var last := segs[|segs| - 1];
      Runs(segs[..|segs| - 1]) + seq(Span(last), _ => last.track)
  }

  /** Expands a segment list back into the per-tick sequence: the runs, then the
      final tick, which the last segment ends on rather than after. */
  function Decode(segs: seq<Segment>): seq<int>
    requires |segs| >= 1
  {
    Runs(segs) + [segs[|segs| - 1].track]
  }

  /** Appending a segment that starts where the list ends and shows another track
      keeps the list contiguous and alternating. */
  lemma Extend(segs: seq<Segment>, s: Segment)
    requires segs == [] ==> s.start == 0
    requires segs != [] ==> Contiguous(segs) && Alternates(segs)
    requires segs != [] ==> segs[|segs| - 1].end == s.start && segs[|segs| - 1].track != s.track
    ensures Contiguous(segs + [s]) && Alternates(segs + [s])
  {
  }

  /** Runs of contiguous segments that agree with `out` reproduce a prefix of it. */
  lemma {:induction false} RunsReproduce(segs: seq<Segment>, out: seq<nat>)
    requires Contiguous(segs) && RunsAgree(segs, out)
    requires forall i :: 0 <= i < |segs| ==> segs[i].start <= segs[i].end
    requires segs[|segs| - 1].end <= |out|
    ensures 0 <= segs[|segs| - 1].start
    ensures Runs(segs) == out[..segs[|segs| - 1].end]
  {
    var last := segs[|segs| - 1];
    var init := segs[..|segs| - 1];
    if |segs| == 1 {
      assert Runs(init) == [];
    } else {
      assert init[|init| - 1].end == last.start;
      assert forall i :: 0 <= i < |init| ==> init[i] == segs[i];
      RunsReproduce(init, out);
    }
    assert Runs(init) == out[..last.start];
    assert out[..last.end] == out[..last.start] + out[last.start..last.end];
    assert out[last.start..last.end] == seq(Span(last), _ => last.track);
  }

  /** Decoding the builder's segments gives back the incumbent sequence. */
  lemma DecodeReproduces(segs: seq<Segment>, out: seq<nat>)
    requires |out| >= 1 && Tiles(segs, |out|) && Agrees(segs, out)
    ensures Decode(segs) == out
  {
    RunsReproduce(segs, out);
    assert out == out[..|out| - 1] + [out[|out| - 1]];
  }

  /** The segment-building loop of the main script (main.py:115-133), lifted into a
      method, without the clip extraction it drives. prevEndPt is kept in ticks:
      the script's seconds times sampleRate. */
  method BuildSegments(outputArray: seq<nat>, sampleRate: nat) returns (outputClipList: seq<Segment>)
    requires sampleRate >= 1
    ensures |outputArray| == 0 ==> outputClipList == [Unstarted(sampleRate)]
    ensures |outputArray| >= 1 ==> Tiles(outputClipList, |outputArray|)
    ensures |outputArray| >= 1 ==> Alternates(outputClipList)
    ensures |outputArray| >= 1 ==> Agrees(outputClipList, outputArray)
  {
    outputClipList := [];
    var counter := 0;
    var prevPriority: int := -1;
    var prevEndPt: int := -(sampleRate as int);
    while counter < |outputArray|
      invariant 0 <= counter <= |outputArray|
      invariant counter == 0 ==> outputClipList == [] && prevPriority == -1 && prevEndPt == -(sampleRate as int)
      invariant counter > 0 ==> 0 <= prevEndPt < counter && prevPriority == outputArray[counter - 1]
      invariant counter > 0 ==> forall t :: prevEndPt <= t < counter ==> outputArray[t] == prevPriority
      invariant counter > 0 && outputClipList == [] ==> prevEndPt == 0
      invariant outputClipList != [] ==>
        && Contiguous(outputClipList) && Alternates(outputClipList)
        && outputClipList[|outputClipList| - 1].end == prevEndPt
        && outputClipList[|outputClipList| - 1].track != prevPriority
      invariant forall i :: 0 <= i < |outputClipList| ==> outputClipList[i].start < outputClipList[i].end
      invariant RunsAgree(outputClipList, outputArray)
    {
      if prevEndPt == -(sampleRate as int) {
        prevPriority := outputArray[counter];
        prevEndPt := 0;
      } else if prevPriority != outputArray[counter] {
        var closed := Segment(prevPriority, prevEndPt, counter);
        assert Shows(closed, outputArray);
        Extend(outputClipList, closed);
        outputClipList := outputClipList + [closed];
        prevPriority := outputArray[counter];
        prevEndPt := counter;
      }
      counter := counter + 1;
    }
    if counter > 0 {
      Extend(outputClipList, Segment(prevPriority, prevEndPt, counter - 1));
    }
    outputClipList := outputClipList + [Segment(prevPriority, prevEndPt, counter - 1)];
  }
}
