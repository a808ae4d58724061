/**
 * The keep-segment planner of yt-cut.py: one sweep over the removal ranges
 * with a cursor, producing the ordered list of segments to keep, each either
 * stream-copied or re-encoded.
 */
module Planner {
  import opened Wrappers
  import opened Keyframes

  /** One removal range, the `segment: [start, end]` pair of a fetched record. */
  datatype Removal = Removal(start: real, end: real)

  /**
   * A segment to keep. `end` is optional because the post-cut sliver takes
   * the next keyframe as its end, which is `None` past the last keyframe.
   */
  datatype KeepSegment = KeepSegment(start: real, end: Option<real>, reencode: bool)

  /** The sweep's state after some ranges: the cursor and the segments so far. */
  datatype Sweep = Sweep(cursor: real, keep: seq<KeepSegment>)

  /** Python truthiness of `nextKeyframe`: `None` and `0.0` are both false. */
  predicate Truthy(v: Option<real>) {
    v.Some? && v.value != 0.0
  }

  /**
   * `cursor = nextKeyframe if nextKeyframe else lastFrame`: the new cursor is
   * the next keyframe when there is a non-zero one, and the end of the video
   * otherwise.
   */
  function NextCursor(next: Option<real>, lastFrame: real): (c: real)
    ensures c == lastFrame || (next.Some? && c == next.value && c != 0.0)
    ensures next.None? || next == Some(0.0) ==> c == lastFrame
    ensures next.Some? && next.value != 0.0 ==> c == next.value
  {
    if Truthy(next) then next.value else lastFrame
  }

  // The segments one removal range appends, in the order the source appends
  // them, each behind its own guard.

  /** Stream copy `[cursor, prevKeyframe)`, unless the cursor is the cut's start. */
  function CopyPart(cursor: real, r: Removal, prev: real): (segs: seq<KeepSegment>)
    ensures |segs| == if cursor != r.start then 1 else 0
    ensures forall seg :: seg in segs ==> !seg.reencode && seg.start == cursor && seg.end == Some(prev)
  {
    if cursor != r.start then [KeepSegment(cursor, Some(prev), false)] else []
  }

  /** Re-encoded `[prevKeyframe, startFrame)`, unless the cut starts at 0. */
  function PreCutPart(r: Removal, prev: real): (segs: seq<KeepSegment>)
    ensures |segs| == if r.start != 0.0 then 1 else 0
    ensures forall seg :: seg in segs ==> seg.reencode && seg.start == prev && seg.end == Some(r.start)
  {
    if r.start != 0.0 then [KeepSegment(prev, Some(r.start), true)] else []
  }

  /** Re-encoded `[endFrame, nextKeyframe)`, unless the cut ends the video. */
  function PostCutPart(r: Removal, next: Option<real>, lastFrame: real): (segs: seq<KeepSegment>)
    ensures |segs| == if r.end != lastFrame then 1 else 0
    ensures forall seg :: seg in segs ==> seg.reencode && seg.start == r.end && seg.end == next
  {
    if r.end != lastFrame then [KeepSegment(r.end, next, true)] else []
  }

  /**
   * One iteration of the loop; `None` when `getPrevKeyframe` raises. It keeps
   * the segments so far and appends at most three.
   */
  function Step(ks: seq<real>, s: Sweep, r: Removal, lastFrame: real): (after: Option<Sweep>)
    ensures after.None? <==> ks == []
    ensures after.Some? ==>
      |s.keep| <= |after.value.keep| <= |s.keep| + 3 && after.value.keep[..|s.keep|] == s.keep
  {
    match PrevKeyframe(ks, r.start)
    case None => None
    case Some(prev) =>
      var next := NextKeyframe(ks, r.end);
      var keep := s.keep + CopyPart(s.cursor, r, prev) + PreCutPart(r, prev) + PostCutPart(r, next, lastFrame);
      Some(Sweep(NextCursor(next, lastFrame), keep))
  }

  /**
   * The loop over all of `rs`, starting from cursor 0 and no segments. It
   * fails exactly when there is a range to process and no keyframe, and
   * appends at most three segments per range.
   */
  function SweepAll(ks: seq<real>, rs: seq<Removal>, lastFrame: real): (res: Option<Sweep>)
    ensures res.None? <==> ks == [] && rs != []
    ensures res.Some? ==> |res.value.keep| <= 3 * |rs|
    decreases |rs|
  {
    if rs == [] then Some(Sweep(0.0, []))
    else
      match SweepAll(ks, rs[..|rs| - 1], lastFrame)
      case None => None
      case Some(s) => Step(ks, s, rs[|rs| - 1], lastFrame)
  }

  /**
   * The copy segment appended after the loop: `[cursor, lastFrame)` when the
   * cursor is short of the end, nothing otherwise.
   */
  function Trailing(cursor: real, lastFrame: real): (segs: seq<KeepSegment>)
    ensures |segs| == if cursor < lastFrame then 1 else 0
    ensures forall seg :: seg in segs ==> !seg.reencode && seg.start == cursor && seg.end == Some(lastFrame)
  {
    if cursor < lastFrame then [KeepSegment(cursor, Some(lastFrame), false)] else []
  }

  /**
   * The whole plan, lines 104-150 of the script: it fails exactly when
   * `getPrevKeyframe` raises, and has at most `3n + 1` segments.
   */
  function Plan(ks: seq<real>, rs: seq<Removal>, lastFrame: real): (plan: Option<seq<KeepSegment>>)
    ensures plan.None? <==> ks == [] && rs != []
    ensures plan.Some? ==> |plan.value| <= 3 * |rs| + 1
  {
    match SweepAll(ks, rs, lastFrame)
    case None => None
    case Some(s) => Some(s.keep + Trailing(s.cursor, lastFrame))
  }

  /** Extending the processed prefix by one range is one more Step. */
  lemma SweepAllPrefix(ks: seq<real>, rs: seq<Removal>, i: nat, lastFrame: real)
    requires i < |rs| && SweepAll(ks, rs[..i], lastFrame).Some?
    ensures SweepAll(ks, rs[..i + 1], lastFrame) == Step(ks, SweepAll(ks, rs[..i], lastFrame).value, rs[i], lastFrame)
  {
    assert rs[..i + 1][..i] == rs[..i];
  }

  /**
   * The planning loop as the script runs it: a mutable cursor and a list of
   * segments appended to, then the trailing copy segment.
   */
  method PlanKeepSegments(keyframes: seq<real>, removals: seq<Removal>, lastFrame: real)
    returns (plan: Option<seq<KeepSegment>>)
    requires Sorted(keyframes)
    ensures plan == Plan(keyframes, removals, lastFrame)
    ensures plan.None? <==> keyframes == [] && removals != []
    ensures plan.Some? ==> |plan.value| <= 3 * |removals| + 1
  {
    var cursor := 0.0;
    var keep: seq<KeepSegment> := [];
    for i := 0 to |removals|
      invariant SweepAll(keyframes, removals[..i], lastFrame) == Some(Sweep(cursor, keep))
    {
      var startFrame := removals[i].start;
      var prevKeyframe := GetPrevKeyframe(keyframes, startFrame);
      if prevKeyframe.None? {
        // keyframes[i-1] on an empty list raises and ends the run
        return None;
      }
      var endFrame := removals[i].end;
      var nextKeyframe := GetNextKeyframe(keyframes, endFrame);
      ghost var before := Sweep(cursor, keep);
      ghost var r := removals[i];
      if cursor != startFrame {
        keep := keep + [KeepSegment(cursor, Some(prevKeyframe.value), false)];
      }
      assert keep == before.keep + CopyPart(before.cursor, r, prevKeyframe.value);
      if startFrame != 0.0 {
        keep := keep + [KeepSegment(prevKeyframe.value, Some(startFrame), true)];
      }
      assert keep == before.keep + CopyPart(before.cursor, r, prevKeyframe.value) + PreCutPart(r, prevKeyframe.value);
      if endFrame != lastFrame {
        keep := keep + [KeepSegment(endFrame, nextKeyframe, true)];
      }
      assert keep == before.keep + CopyPart(before.cursor, r, prevKeyframe.value)
        + PreCutPart(r, prevKeyframe.value) + PostCutPart(r, nextKeyframe, lastFrame);
      cursor := if nextKeyframe.Some? && nextKeyframe.value != 0.0 then nextKeyframe.value else lastFrame;
      SweepAllPrefix(keyframes, removals, i, lastFrame);
    }
    assert removals[..|removals|] == removals;
    ghost var swept := keep;
    if cursor < lastFrame {
      keep := keep + [KeepSegment(cursor, Some(lastFrame), false)];
    }
    assert keep == swept + Trailing(cursor, lastFrame);
    plan := Some(keep);
  }
}
