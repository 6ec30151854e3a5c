# Loudness-driven track selector — a Dafny model

autoPodcastEditor cuts several synchronised recordings of one conversation into a
single video. At every moment it shows the track whose speaker is loudest. It only
hands the picture to a new speaker once that speaker has stayed the loudest for
long enough. This project models the selection core of `main.py` and proves its
properties:

- **Downsampler** (`parseAudioData`): keeps the first channel of every
  `d`-th frame of a decoded WAV file, where `d = floor(audioRate / SAMPLE_RATE)`.
- **Aligner** (`normalizeArrays`): pads every signal with trailing zeros, in place,
  to the longest length.
- **Selector** (`returnHighestIndex`): picks the loudest track at one tick. The
  incumbent's magnitude is multiplied by `EXCEEDS_BY`, and the first maximum wins.
- **Hysteresis filter** (`compareAudioArrays`): a challenger becomes the incumbent
  only after it has won `THRESHOLD` consecutive ticks.
- **Segment builder** (the script loop at main.py:115-133): run-length encodes the
  incumbent sequence into `(track, start, end)` clips.
- **Pipeline** (`Editor.SelectSegments`): the main script's data flow from decoded
  files to the clip list, without any media work.

The globals `SAMPLE_RATE`, `THRESHOLD` and `EXCEEDS_BY` become the parameters
`sampleRate`, `threshold` and `exceedsBy`. `EXCEEDS_BY` is the integer 4 in the
source and is used as a multiplier, so it is a `nat`. All times are in decision
ticks. A tick `t` is `t / SAMPLE_RATE` seconds.

Files: `downsampling.dfy`, `alignment.dfy`, `selection.dfy`, `hysteresis.dfy`,
`segments.dfy`, `editor.dfy` (the pipeline) and `scenarios.dfy` (a worked run).

Edge behaviour of `main.py` that the model reproduces:

- **Signal length.** The downsampling loop runs while `sampleCounter <= len`. It
  therefore reads index `len` whenever `d` divides `len`, and that includes the
  empty file. The model reports this as `OutOfRange(len)`. Otherwise the signal has
  `len / d + 1` samples.
- **Divider of 0.** When `d == 0` the loop never advances. The model reports
  `NoProgress`, or `OutOfRange(0)` when there are no frames, because the first read
  already fails.
- **Two speakers taking turns.** With `THRESHOLD = 2` and no bias, the challenger
  that first wins at tick 3 takes over at tick 4, its second consecutive win
  (`Scenarios.TakingTurnsSwitchesAtSecondWin`).
- **Last clip.** The last clip ends at tick `L - 1` (main.py:133), so the final
  tick is not covered by any clip's run. `Segments.Decode` adds that tick back
  explicitly.
- **Empty timeline.** With no ticks the loop never runs, and the final clip keeps
  the initial values: track `-1`, start `-1` second and end `-1/SAMPLE_RATE`
  seconds. In ticks that is start `-SAMPLE_RATE` and end `-1`.

## Model

| member | source | states |
|---|---|---|
| `Downsampling.ParseAudioData` | main.py:23-30 | Returns exactly `Downsample`. It fails with `OutOfRange(len)` when the divider `d` divides `len` (the read at index `len` under the `<=` bound). When `d == 0` it fails with `NoProgress`, or with `OutOfRange(0)` if there are no frames. Otherwise it returns the first channel of frames `0, d, 2d, …` |
| `Downsampling.ReadAtLengthFails` | main.py:26-28 | If the counter lands exactly on `len`, downsampling fails with `OutOfRange(len)` |
| `Downsampling.CollectedIsDownsample` | main.py:26-30 | If the counter steps past `len` after collecting channel 0 of frames `0, d, …, (m-1)d`, those `m` samples are the whole downsampled signal |
| `Downsampling.DownsampleFails` | main.py:24-29 | Downsampling fails if and only if `d == 0` or `d` divides `len`. When `d >= 1` the error is `OutOfRange(len)` |
| `Downsampling.DownsampleCoversMultiples` | main.py:26-29 | On success there is exactly one output per multiple of `d` below `len`: `(|out|-1)*d < len < |out|*d`. Element `k` is channel 0 of frame `k*d` |
| `Downsampling.DownsampleSilence` | main.py:27-28 | A track whose first channel is all zeros downsamples to an all-zero signal |
| `Alignment.MaxLength` | main.py:89-94 | The result is at least every signal's length. It is the length of one of them, or 0 when there are none |
| `Alignment.LongestLength` | main.py:89-94 | The first loop of `normalizeArrays` computes `MaxLength` of the tracks' current contents |
| `Alignment.Normalized` | main.py:95-99 | Keeps the number of tracks. Every result has the longest input length, each original signal is an unchanged prefix of its result, and every appended element is 0. At least one track gives aligned signals |
| `Alignment.NormalizedIdempotent` | main.py:95-99 | Padding never truncates: aligning twice is the same as aligning once |
| `Alignment.AppendZeros` | main.py:97-98 | The inner loop appends exactly `count` zeros to the track and changes nothing else in it |
| `Alignment.PadAll` | main.py:95-99 | Returns the caller's tracks in order. Every track then has length `maxArrayLen` and starts with its old samples, followed only by zeros. This holds even when one list occurs twice |
| `Alignment.NormalizeArrays` | main.py:88-100 | Returns the caller's tracks in the same order. Each track now holds its old signal padded with zeros to the longest old length. This holds even when one list occurs twice |
| `Selection.LeaderIsFirstMax` | main.py:71-81 | After tracks `0..n-1`, `maxVal` is the weight of `returnIndex` and no track seen so far weighs more. Every track before `returnIndex` weighs strictly less, so the strict `>` keeps the first maximum |
| `Selection.Winner` | main.py:70-82 | With no tracks the result is 0. Otherwise it is a valid track index |
| `Selection.WinnerIsFirstWeightedMax` | main.py:70-82 | The winner is the first weighted maximum: its weight is at least every track's and strictly above every lower-indexed track's. The incumbent's `|x|` is multiplied by `EXCEEDS_BY` |
| `Selection.SilenceElectsFirstTrack` | main.py:71-82 | When every track is silent at the tick, the result is track 0, whatever the incumbent |
| `Selection.FirstWeightedMaxIsWinner` | main.py:71-81 | The first weighted maximum is unique, so it is the winner |
| `Selection.ReturnHighestIndex` | main.py:70-82 | The loop returns `Winner`: a valid index when there are tracks, and the first weighted maximum |
| `Hysteresis.StateAfter` | main.py:37-55 | After any number of ticks, both the incumbent (`priorityArray`) and the candidate (`prevArray`) are valid track indices |
| `Hysteresis.Incumbents` | main.py:42-57 | The output has one entry per tick of the aligned signals, and every entry is a valid track index |
| `Hysteresis.CandidateStreak` | main.py:46-52 | `consecutiveCount` is at most the number of ticks handled. The candidate was the instantaneous winner on each of the last `consecutiveCount` ticks |
| `Hysteresis.SwitchNeedsThresholdWins` | main.py:46-55 | If the incumbent changes at tick `t`, then `t + 1 >= THRESHOLD`. The new incumbent was the instantaneous winner at `t` and at each of the `THRESHOLD` ticks ending at `t`, each judged against that tick's incumbent |
| `Hysteresis.StreakBuildsCount` | main.py:46-52 | A track that was the instantaneous winner on each of the last `k` ticks up to `t` is the candidate (`prevArray`) after tick `t`, with `consecutiveCount >= k` |
| `Hysteresis.ThresholdWinsSwitch` | main.py:46-55 | For `1 <= THRESHOLD <= t + 1`: a track that was the instantaneous winner on each of the `THRESHOLD` ticks ending at `t`, each judged against that tick's incumbent, is the output at `t` |
| `Hysteresis.SilentBeforeThreshold` | main.py:37-56 | Before any switch can happen (`t + 1 < THRESHOLD`), the output is the initial incumbent 0 |
| `Hysteresis.KeepsOrFollowsWinner` | main.py:54-56 | Every tick either keeps the previous output or hands over to `returnHighestIndex(arrays, t, out[t-1])`, the instantaneous winner judged against it |
| `Hysteresis.ThresholdOneFollowsWinner` | main.py:46-56 | With `THRESHOLD <= 1` there is no debouncing: `out[t] = returnHighestIndex(arrays, t, out[t-1])`, taking `out[-1] = 0` |
| `Hysteresis.ScanIncumbents` | main.py:37-57 | The while loop emits `Incumbents`. Its length is the common signal length and each entry is a valid track index |
| `Hysteresis.CompareAudioArrays` | main.py:36-62 | Pads the caller's tracks in place, exactly as `Normalized` describes. Returns `Incumbents` of the padded signals |
| `Segments.RunsReproduce` | main.py:120-130 | Contiguous segments starting at 0 whose ticks agree with the output: laying their runs end to end reproduces the output up to the last segment's end |
| `Segments.DecodeReproduces` | main.py:118-133 | Segments that tile the timeline and agree with the output decode back to it: the runs plus the final tick give the output |
| `Segments.BuildSegments` | main.py:115-133 | For `L >= 1`: the first clip starts at tick 0 and each clip starts where the previous one ends. Every clip but the last spans at least one tick, and the last one ends at `L-1`. Adjacent clips never share a track. Each clip's track is the output at every tick from its start up to its end, and the last clip's track is the final output. For `L = 0` it returns the one clip the script cuts from its initial values: track `-1`, start `-SAMPLE_RATE` ticks (the initial `-1` second) and end tick `-1` |
| `Editor.TimelineNotEmpty` | main.py:104-112 | Every downsampled signal has at least one sample, so the timeline the script cuts is never empty |
| `Editor.SelectSegments` | main.py:104-133 | Fails with the error of the first input that does not downsample. Otherwise every input downsamples, the timeline is non-empty, and the clips tile it and alternate. Decoding the clips gives the incumbent sequence of the padded signals |
| `Scenarios.TakingTurnsSwitchesAtSecondWin` | main.py:45-57 | For tracks `[10,10,10,1,1,1]` and `[1,1,1,10,10,10]`, `THRESHOLD = 2` and `EXCEEDS_BY = 1`, the output is `[0,0,0,0,1,1]` |

## Left out

- The ffmpeg subprocess and `wavfile.read` (main.py:106-111) are process and file I/O. Their result is the input `Editor.Decoded` (rate and frames).
- A mono file gives a one-dimensional array, and indexing `[0]` into it fails. The model requires every frame to have a first channel (`HasChannel`), because the decoder is called with `-ac 2`.
- `math.floor(audioRate / SAMPLE_RATE)` goes through a float. The model uses integer division, which agrees for any realistic rate. `SAMPLE_RATE >= 1` is required, because 0 would raise a division error.
- The debug dump to `tmp/audioData.txt` (main.py:58-61) is file I/O.
- All moviepy work is foreign media code: `VideoFileClip(...).subclip`, `concatenate_videoclips`, `AudioFileClip`, `CompositeAudioClip`, `set_audio`, `write_videofile` and the `NO_OVERLAP_AUDIO` switch (main.py:128, 133-144). The clip list is the model's output.
- The `print` traces (main.py:127, 132) are output only. Their end time `counter/SAMPLE_RATE` differs from the clip end `(counter-1)/SAMPLE_RATE` at line 133, which the model follows.
- Clip bounds are float seconds in the source and integer ticks in the model.
- NumPy `int16` wrap-around in `abs(x)` and `abs(x)*EXCEEDS_BY` is not modelled. Weights are mathematical integers.
- `CompareAudioArrays`: an empty track list raises an index error at `audioArrays[0]`. The model requires at least one track; the script's `INPUT_FILES` is a non-empty constant.
- `BuildSegments`: on an empty timeline the script cuts its clip from `INPUT_FILES[-1]`, the last input file. The model returns track `-1` as it is and does not resolve the negative index. `Editor.TimelineNotEmpty` shows that the script never reaches this case.
- The exceptions that abort the script are modelled as a `Failure` result from the first failing input.
