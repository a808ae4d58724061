# yt-cut keep-segment planner, modelled in Dafny

yt-cut removes sponsor segments from a downloaded video. It fetches the
ranges to remove, asks ffprobe for the keyframe timestamps, the duration
and the codec, and then plans which parts of the video to keep. A kept part
is either stream-copied (lossless, only possible between keyframes) or
re-encoded (a short sliver between a cut point and the nearest keyframe).
ffmpeg then renders each part and concatenates them.

This project models the planning step and the lookups it depends on:

- `wrappers.dfy`: `Option`, standing for Python's `None` and for the error
  outcome of a lookup.
- `keyframes.dfy`: `bisect.bisect_right` as a binary-search loop
  (`BisectRight`), proved equal to a reference definition (`CountAtMost`).
  Also `getPrevKeyframe` and `getNextKeyframe` as functions, with
  executable methods that go through the binary search.
- `encoder.dfy`: the `CODEC_MAP` lookup with its `libx264` default.
- `planner.dfy`: the planning sweep. `Step`, `SweepAll` and `Plan` are its
  specification, a left fold over the removal ranges. `PlanKeepSegments` is
  the loop as the script writes it: a mutable cursor and a list that is
  appended to. It is proved equal to `Plan`.
- `planner_properties.dfy`: lemmas about the plan. They cover what one range
  appends and in which order, how segments chain, keyframe alignment of
  stream copies, where re-encoded slivers sit, and worked edge cases.
- `coverage.dfy`: when the plan covers the video. The kept segments and the
  removal ranges, interleaved in sweep order, form a timeline. On
  well-spaced input (`WellSpaced`) that timeline runs without gap or
  overlap from 0 to `lastFrame`. The condition is sufficient, not necessary.
  Outside it coverage can fail, for example `ExampleRangesInOneKeyframeInterval`.

Modelling decisions:

- Timestamps are `real`. The planner only compares and forwards them.
- The keyframe list must be ascending (`Sorted`, repeats allowed), which is
  what `bisect` assumes. Nothing else is required of the inputs. Removal
  ranges may be unsorted, overlapping or empty.
- `getPrevKeyframe` is modelled with Python's negative indexing. When the
  time is below every keyframe, `keyframes[-1]` returns the last keyframe
  (`PrevKeyframeWrapsAround`). On an empty list it raises `IndexError`,
  modelled as `None`. The planner then returns `None`, which stands for the
  aborted run. That happens exactly when there is no keyframe and at least
  one range (`SweepAll`, `Plan`).
- The cursor update `nextKeyframe if nextKeyframe else lastFrame` uses
  Python truthiness (`Truthy`). It falls back to `lastFrame` for `None` and
  also for a next keyframe of `0.0`.
- A segment's end is `Option<real>`. The post-cut sliver ends at the next
  keyframe, which is `None` past the last keyframe.

## Model

| member | source | states |
|---|---|---|
| `Keyframes.CountAtMost` | yt-cut.py:50 | the rightmost insertion point of `t` never exceeds the length of the keyframe list |
| `Keyframes.SplitIsCountAtMost` | yt-cut.py:50 | an index that splits the list into keyframes `<= t` and keyframes `> t` is the insertion point, so the insertion point is unique |
| `Keyframes.CountAtMostSplits` | yt-cut.py:50 | on an ascending list, every keyframe before the insertion point is `<= t` and every keyframe from it on is `> t` (the `bisect_right` postcondition) |
| `Keyframes.BisectRight` | yt-cut.py:50 | the `lo`/`hi` binary search returns the rightmost insertion point: keyframes before it are `<= t`, keyframes from it on are `> t` |
| `Keyframes.PrevKeyframe` | yt-cut.py:49-52 | the lookup fails (IndexError) exactly on an empty list; otherwise it returns a member of the list |
| `Keyframes.NextKeyframe` | yt-cut.py:54-57 | a returned value is always one of the keyframes |
| `Keyframes.GetPrevKeyframe` | yt-cut.py:49-52 | the binary-search lookup agrees with `PrevKeyframe` and fails exactly on an empty list |
| `Keyframes.GetNextKeyframe` | yt-cut.py:54-57 | the binary-search lookup agrees with `NextKeyframe`, and a returned keyframe lies strictly after `t` |
| `Keyframes.PrevKeyframeIsGreatestAtMost` | yt-cut.py:49-52 | with a keyframe at or before `t`, the result is `<= t`, no keyframe `<= t` is greater, and an exact match returns `t` itself |
| `Keyframes.PrevKeyframeWrapsAround` | yt-cut.py:50-51 | below every keyframe, index `-1` returns the last keyframe |
| `Keyframes.NextKeyframeIsLeastAbove` | yt-cut.py:54-57 | `None` exactly when the list is empty or `t` is at or past the last keyframe; otherwise the least keyframe strictly above `t` |
| `Keyframes.LookupsAreAdjacent` | yt-cut.py:49-57 | for `t` from the first keyframe up to but excluding the last one, the two lookups return neighbouring keyframes, at indices `i-1` and `i` |
| `Keyframes.NoKeyframeAfterPrev` | yt-cut.py:49-52 | no keyframe lies strictly between the previous keyframe and `t`, also in the wrap-around case |
| `Keyframes.NoKeyframeBeforeNext` | yt-cut.py:54-57 | no keyframe lies strictly between `t` and the next keyframe |
| `Encoder.EncoderFor` | yt-cut.py:95-101 | `h264`, `hevc`, `vp9` and `av1` map to `libx264`, `libx265`, `libvpx-vp9` and `libsvtav1`; any other codec gets `libx264`; the result is always one of those four encoders |
| `Planner.NextCursor` | yt-cut.py:143 | the new cursor is the next keyframe when that is truthy (`Truthy`: present and not `0.0`), and `lastFrame` when it is `None` or `0.0` |
| `Planner.CopyPart` | yt-cut.py:121-126 | one stream copy `[cursor, prevKF)` exactly when `cursor != startFrame`, none otherwise |
| `Planner.PreCutPart` | yt-cut.py:129-134 | one re-encoded sliver `[prevKF, startFrame)` exactly when `startFrame != 0`, none otherwise |
| `Planner.PostCutPart` | yt-cut.py:136-141 | one re-encoded sliver `[endFrame, nextKF)` exactly when `endFrame != lastFrame`, none otherwise; its end is `None` when there is no next keyframe |
| `Planner.Step` | yt-cut.py:113-143 | one range fails exactly when there are no keyframes; otherwise it keeps every earlier segment and appends at most three |
| `Planner.SweepAll` | yt-cut.py:112-143 | the loop aborts (`getPrevKeyframe` raising) exactly when there is at least one range and no keyframe; otherwise it has appended at most three segments per range |
| `Planner.Trailing` | yt-cut.py:145-150 | one stream copy `[cursor, lastFrame)` exactly when `cursor < lastFrame`, none otherwise |
| `Planner.Plan` | yt-cut.py:104-150 | the planning fails exactly when there is at least one range and no keyframe; a plan has at most `3n + 1` segments for `n` ranges |
| `Planner.PlanKeepSegments` | yt-cut.py:104-150 | the loop with its mutable cursor computes exactly `Plan`; it fails exactly when there is no keyframe and some range; a plan has at most `3n + 1` segments |
| `PlannerProperties.StepAppends` | yt-cut.py:112-143 | one range leaves the earlier segments alone and appends 0 to 3 segments: a stream copy `[cursor, prevKF)` iff `cursor != startFrame`, then a re-encode `[prevKF, startFrame)` iff `startFrame != 0`, then a re-encode `[endFrame, nextKF)` iff `endFrame != lastFrame`; all stream copies come before all re-encodes; the cursor becomes `nextKF` when it is truthy, else `lastFrame` |
| `PlannerProperties.StepChains` | yt-cut.py:121-143 | the copy starts at the old cursor and ends where the pre-cut sliver starts; the post-cut sliver ends at the new cursor when the next keyframe is truthy, and has no end when there is no next keyframe |
| `PlannerProperties.PlanWithoutRemovals` | yt-cut.py:104-150 | with no ranges the plan is the single stream copy `[0, lastFrame)`, or empty when `lastFrame <= 0` |
| `PlannerProperties.PlanAddsTrailingCopy` | yt-cut.py:145-150 | the plan is the sweep's segments followed by exactly one stream copy `[cursor, lastFrame)` iff `cursor < lastFrame`, and by nothing otherwise |
| `PlannerProperties.SweepAligned` | yt-cut.py:121-143 | the cursor is always `0`, a keyframe or `lastFrame`, and every stream copy so far is aligned |
| `PlannerProperties.PlanCopiesAligned` | yt-cut.py:121-150 | every stream-copied segment starts at `0`, a keyframe or `lastFrame`, and ends at a keyframe or `lastFrame` |
| `PlannerProperties.SweepSliversAtCuts` | yt-cut.py:129-141 | every re-encoded segment of the sweep is a sliver of one of the ranges |
| `PlannerProperties.PlanSliversAtCuts` | yt-cut.py:129-150 | every re-encoded segment is `[prevKF(start), start)` or `[end, nextKF(end))` for some removal range `[start, end)` |
| `PlannerProperties.PlanSliversHoldNoKeyframe` | yt-cut.py:129-141 | on an ascending keyframe list, no keyframe lies strictly inside a re-encoded segment that has an end, so re-encoding never spans more than one keyframe gap |
| `PlannerProperties.ExampleCutAtStart` | yt-cut.py:129-143 | the range `[0, 5)`, keyframes `0, 2, 4, 6, 8` and `lastFrame = 100` emit only the re-encoded `[5, 6)`, move the cursor to 6, and the plan ends with the copy `[6, 100)` |
| `PlannerProperties.ExampleCutAtEnd` | yt-cut.py:121-150 | the range `[95, 100)` with keyframes `0, 30, 60, 90` and `lastFrame = 100` gives the copy `[0, 90)` and the re-encode `[90, 95)`, and nothing after the cut |
| `PlannerProperties.ExampleRangesInOneKeyframeInterval` | yt-cut.py:112-150 | two sorted, disjoint ranges `[12, 13)` and `[15, 16)` in one keyframe interval give a backwards copy `[20, 10)` and a sliver `[10, 15)` that contains the first removed range |
| `PlannerProperties.ExampleRangeBeforeFirstKeyframe` | yt-cut.py:112-150 | the range `[1, 3)` with keyframes `5, 10, 15` and `lastFrame = 20` wraps the previous keyframe round to 15, giving the copy `[0, 15)` over the removed range, the backwards sliver `[15, 1)`, the sliver `[3, 5)` and the copy `[5, 20)` |
| `PlannerProperties.ExampleRangePastLastKeyframe` | yt-cut.py:112-150 | the range `[5, 15)` with keyframes `0, 10` and `lastFrame = 20` gives an empty copy `[0, 0)`, the re-encode `[0, 5)` and a post-cut sliver `[15, None)` without an end |
| `PlanCoverage.PlanTimelineMatchesPlan` | yt-cut.py:104-150 | the timeline's kept pieces are exactly the plan, and its removed pieces are exactly the ranges, in order |
| `PlanCoverage.StepPiecesContiguous` | yt-cut.py:113-143 | when the cursor, the previous keyframe and the range are in order and the range ends before a truthy next keyframe (or at `lastFrame`, with no truthy next keyframe), one range's copy, pre-cut sliver, removed range and post-cut sliver run without gap from the old cursor to the new one |
| `PlanCoverage.TimelineContiguous` | yt-cut.py:112-143 | on well-spaced input the sweep succeeds and its timeline runs without gap from 0 to the final cursor |
| `PlanCoverage.PlanCoversVideo` | yt-cut.py:104-150 | on well-spaced input the plan exists, its timeline runs without gap from 0 to `lastFrame`, and every instant of `[0, lastFrame)` lies in exactly one kept segment or removed range |
| `PlanCoverage.PlanSegmentsInVideo` | yt-cut.py:104-150 | on well-spaced input every planned segment has an end and satisfies `0 <= start <= end <= lastFrame` |

## Left out

- Argument parsing, the input checks and their `exit(1)` (yt-cut.py:9-30), and the early exit when there are no ranges (yt-cut.py:65-67). These are command-line plumbing. The planner itself handles an empty range list (`PlanWithoutRemovals`).
- `fetchSegments` (yt-cut.py:36-47) is an HTTP client. Its result enters the model as a sequence of `Removal(start, end)` pairs. The other fields of a fetched record are ignored by the planner.
- The ffprobe calls and the parsing of keyframes, duration and codec name (yt-cut.py:69-93) are external processes and float parsing. Their results are parameters of the model.
- The ffmpeg commands, the concat manifest and the deletion of temporary files (yt-cut.py:157-205) are process and file I/O.
- IEEE floating point: timestamps are exact reals. The planner only compares and copies them.
- `BisectRight`: the logarithmic running time of the binary search is not stated, only its result.
- Planner.Plan: coverage (the kept segments and the removed ranges tiling `[0, lastFrame)`) is proved only on well-spaced input (`PlanCoversVideo`). Well-spaced (`WellSpaced`) means: an ascending keyframe list whose first keyframe is at least 0 and whose last keyframe is at most `lastFrame`; `lastFrame >= 0`; at least one keyframe when there is a range; every range satisfying `firstKF <= start <= end` and ending either at `lastFrame` or before the last keyframe; and each range's next keyframe existing and lying at or before the following range's previous keyframe. The condition is sufficient, not necessary. Outside it coverage can fail. Two sorted, disjoint ranges inside one keyframe interval give a backwards copy `[20, 10)`, and the second range's pre-cut sliver `[10, 15)` re-includes the removed `[12, 13)` (`ExampleRangesInOneKeyframeInterval`). A range before the first keyframe makes index -1 wrap to the last keyframe (yt-cut.py:51), and the stream copy up to it re-includes the removed range (`ExampleRangeBeforeFirstKeyframe`). No repaired planner is modelled.
- A range that ends past the last keyframe but before `lastFrame` yields a post-cut sliver whose end is `None` (`ExampleRangePastLastKeyframe`). The rendering step's `{seg['end']:.2f}` (yt-cut.py:159) then raises `TypeError`. Rendering is not part of this model, so the crash is shown only as the end-less segment in the plan.
- BisectRight: requires an ascending keyframe list, as `bisect` does. What `bisect_right` returns on an unsorted list is not modelled. The same holds for `GetPrevKeyframe`, `GetNextKeyframe` and `PlanKeepSegments`, which call it.
