/**
 * Properties of the keep-segment plan: what one range appends, how the
 * segments chain, where stream-copied and re-encoded segments may start and
 * end, and worked examples of the planner's edge cases.
 */
module PlannerProperties {
  import opened Wrappers
  import opened Keyframes
  import opened Planner

  /**
   * One range appends zero to three segments after the earlier ones, in the
   * fixed order stream copy, pre-cut sliver, post-cut sliver, each present
   * exactly when its guard holds; the cursor then moves to the next keyframe,
   * or to the end of the video when that is falsy.
   */
  lemma StepAppends(ks: seq<real>, s: Sweep, r: Removal, lastFrame: real)
    requires ks != []
    ensures Step(ks, s, r, lastFrame).Some?
    ensures
      var after := Step(ks, s, r, lastFrame).value;
      var prev := PrevKeyframe(ks, r.start).value;
      var next := NextKeyframe(ks, r.end);
      var at := |s.keep|;
      var copied := if s.cursor != r.start then 1 else 0;
      && at <= |after.keep| && after.keep[..at] == s.keep
      && |after.keep| - at == copied + (if r.start != 0.0 then 1 else 0) + (if r.end != lastFrame then 1 else 0)
      && (forall j :: at <= j < |after.keep| ==> (after.keep[j].reencode <==> at + copied <= j))
      && (s.cursor != r.start ==> after.keep[at] == KeepSegment(s.cursor, Some(prev), false))
      && (r.start != 0.0 ==> after.keep[at + copied] == KeepSegment(prev, Some(r.start), true))
      && (r.end != lastFrame ==> after.keep[|after.keep| - 1] == KeepSegment(r.end, next, true))
      && after.cursor == (if next.Some? && next.value != 0.0 then next.value else lastFrame)
  {
  }

  /**
   * Within one range the segments chain end to start: the copy ends where
   * the pre-cut sliver starts (both at the keyframe before the cut), the
   * post-cut sliver ends at the new cursor when the next keyframe is truthy,
   * and has no end at all when there is no next keyframe.
   */
  lemma StepChains(ks: seq<real>, s: Sweep, r: Removal, lastFrame: real)
    requires ks != []
    ensures Step(ks, s, r, lastFrame).Some?
    ensures
      var after := Step(ks, s, r, lastFrame).value;
      var added := after.keep[|s.keep|..];
      var next := NextKeyframe(ks, r.end);
      && (s.cursor != r.start ==> added != [] && added[0].start == s.cursor)
      && (s.cursor != r.start && r.start != 0.0 ==> |added| >= 2 && added[0].end == Some(added[1].start))
      && (r.end != lastFrame && Truthy(next) ==> added != [] && added[|added| - 1].end == Some(after.cursor))
      && (r.end != lastFrame && next.None? ==> added != [] && added[|added| - 1].end.None?)
  {
    StepAppends(ks, s, r, lastFrame);
  }

  /** No removal ranges: a single stream copy of the whole video, if it is not empty. */
  lemma PlanWithoutRemovals(ks: seq<real>, lastFrame: real)
    ensures Plan(ks, [], lastFrame) ==
      Some(if 0.0 < lastFrame then [KeepSegment(0.0, Some(lastFrame), false)] else [])
  {
    assert SweepAll(ks, [], lastFrame) == Some(Sweep(0.0, []));
    assert [] + Trailing(0.0, lastFrame) == Trailing(0.0, lastFrame);
  }

  /**
   * The plan is the sweep's segments followed by one stream copy
   * `[cursor, lastFrame)` exactly when the final cursor is short of the end.
   */
  lemma PlanAddsTrailingCopy(ks: seq<real>, rs: seq<Removal>, lastFrame: real)
    requires SweepAll(ks, rs, lastFrame).Some?
    ensures
      var s := SweepAll(ks, rs, lastFrame).value;
      var p := Plan(ks, rs, lastFrame).value;
      && Plan(ks, rs, lastFrame).Some?
      && |s.keep| <= |p| && p[..|s.keep|] == s.keep
      && (|p| == |s.keep| + 1 <==> s.cursor < lastFrame)
      && (|p| != |s.keep| + 1 ==> |p| == |s.keep|)
      && (s.cursor < lastFrame ==> p[|p| - 1] == KeepSegment(s.cursor, Some(lastFrame), false))
  {
  }

  /** Where a timestamp may stand at the start of a stream copy. */
  predicate CopyStart(ks: seq<real>, lastFrame: real, t: real) {
    t == 0.0 || t in ks || t == lastFrame
  }

  /**
   * A stream-copied segment starts at 0, at a keyframe or at the end of the
   * video, and ends at a keyframe or at the end of the video.
   */
  predicate CopyAligned(ks: seq<real>, lastFrame: real, seg: KeepSegment) {
    !seg.reencode ==>
      CopyStart(ks, lastFrame, seg.start) && seg.end.Some? && (seg.end.value in ks || seg.end.value == lastFrame)
  }

  /** The sweep keeps its cursor at 0, a keyframe or the end, and its copies aligned. */
  lemma {:induction false} SweepAligned(ks: seq<real>, rs: seq<Removal>, lastFrame: real)
    requires SweepAll(ks, rs, lastFrame).Some?
    ensures CopyStart(ks, lastFrame, SweepAll(ks, rs, lastFrame).value.cursor)
    ensures forall j :: 0 <= j < |SweepAll(ks, rs, lastFrame).value.keep| ==>
      CopyAligned(ks, lastFrame, SweepAll(ks, rs, lastFrame).value.keep[j])
    decreases |rs|
  {
    if rs != [] {
      var init := rs[..|rs| - 1];
      SweepAligned(ks, init, lastFrame);
      var s := SweepAll(ks, init, lastFrame).value;
      var after := SweepAll(ks, rs, lastFrame).value;
      var r := rs[|rs| - 1];
      var prev := PrevKeyframe(ks, r.start).value;
      var next := NextKeyframe(ks, r.end);
      assert after == Step(ks, s, r, lastFrame).value;
      StepAppends(ks, s, r, lastFrame);
      forall j | 0 <= j < |after.keep| ensures CopyAligned(ks, lastFrame, after.keep[j]) {
        if j < |s.keep| {
          assert after.keep[j] == s.keep[j];
        }
      }
    }
  }

  /** Every stream-copied segment of the plan is keyframe-aligned. */
  lemma PlanCopiesAligned(ks: seq<real>, rs: seq<Removal>, lastFrame: real)
    requires Plan(ks, rs, lastFrame).Some?
    ensures forall j :: 0 <= j < |Plan(ks, rs, lastFrame).value| ==>
      CopyAligned(ks, lastFrame, Plan(ks, rs, lastFrame).value[j])
  {
    SweepAligned(ks, rs, lastFrame);
    PlanAddsTrailingCopy(ks, rs, lastFrame);
    var s := SweepAll(ks, rs, lastFrame).value;
    var p := Plan(ks, rs, lastFrame).value;
    forall j | 0 <= j < |p| ensures CopyAligned(ks, lastFrame, p[j]) {
      if j < |s.keep| {
        assert p[j] == s.keep[j];
      }
    }
  }

  /**
   * A re-encoded sliver of range `r`: either from the keyframe before the
   * cut to the cut's start, or from the cut's end to the keyframe after it.
   */
  predicate SliverOf(ks: seq<real>, r: Removal, seg: KeepSegment) {
    || (seg.end == Some(r.start) && PrevKeyframe(ks, r.start) == Some(seg.start))
    || (seg.start == r.end && seg.end == NextKeyframe(ks, r.end))
  }

  /** Every re-encoded segment of the sweep is a sliver of one of the ranges. */
  lemma {:induction false} SweepSliversAtCuts(ks: seq<real>, rs: seq<Removal>, lastFrame: real)
    requires SweepAll(ks, rs, lastFrame).Some?
    ensures forall j :: (0 <= j < |SweepAll(ks, rs, lastFrame).value.keep| &&
                         SweepAll(ks, rs, lastFrame).value.keep[j].reencode) ==>
      exists r :: r in rs && SliverOf(ks, r, SweepAll(ks, rs, lastFrame).value.keep[j])
    decreases |rs|
  {
    if rs != [] {
      var init := rs[..|rs| - 1];
      SweepSliversAtCuts(ks, init, lastFrame);
      var s := SweepAll(ks, init, lastFrame).value;
      var after := SweepAll(ks, rs, lastFrame).value;
      var r := rs[|rs| - 1];
      assert after == Step(ks, s, r, lastFrame).value;
      StepAppends(ks, s, r, lastFrame);
      forall j | 0 <= j < |after.keep| && after.keep[j].reencode
        ensures exists r' :: r' in rs && SliverOf(ks, r', after.keep[j])
      {
        if j < |s.keep| {
          assert after.keep[j] == s.keep[j];
          var r' :| r' in init && SliverOf(ks, r', s.keep[j]);
          assert r' in rs;
        } else {
          assert r in rs && SliverOf(ks, r, after.keep[j]);
        }
      }
    }
  }

  /** Every re-encoded segment of the plan is a sliver of one of the ranges. */
  lemma PlanSliversAtCuts(ks: seq<real>, rs: seq<Removal>, lastFrame: real)
    requires Plan(ks, rs, lastFrame).Some?
    ensures forall j :: 0 <= j < |Plan(ks, rs, lastFrame).value| && Plan(ks, rs, lastFrame).value[j].reencode ==>
      exists r :: r in rs && SliverOf(ks, r, Plan(ks, rs, lastFrame).value[j])
  {
    SweepSliversAtCuts(ks, rs, lastFrame);
    PlanAddsTrailingCopy(ks, rs, lastFrame);
    var s := SweepAll(ks, rs, lastFrame).value;
    var p := Plan(ks, rs, lastFrame).value;
    forall j | 0 <= j < |p| && p[j].reencode ensures exists r :: r in rs && SliverOf(ks, r, p[j]) {
      assert j < |s.keep| && p[j] == s.keep[j];
    }
  }

  /**
   * Re-encoding is kept small: no keyframe lies strictly inside a re-encoded
   * segment, so each spans at most the gap between two neighbouring keyframes.
   */
  lemma PlanSliversHoldNoKeyframe(ks: seq<real>, rs: seq<Removal>, lastFrame: real)
    requires Sorted(ks) && Plan(ks, rs, lastFrame).Some?
    ensures forall j, k :: (0 <= j < |Plan(ks, rs, lastFrame).value| && k in ks &&
                            Plan(ks, rs, lastFrame).value[j].reencode && Plan(ks, rs, lastFrame).value[j].end.Some?) ==>
      !(Plan(ks, rs, lastFrame).value[j].start < k < Plan(ks, rs, lastFrame).value[j].end.value)
  {
    PlanSliversAtCuts(ks, rs, lastFrame);
    var p := Plan(ks, rs, lastFrame).value;
    forall j, k | 0 <= j < |p| && k in ks && p[j].reencode && p[j].end.Some?
      ensures !(p[j].start < k < p[j].end.value)
    {
      var r :| r in rs && SliverOf(ks, r, p[j]);
      if p[j].end == Some(r.start) && PrevKeyframe(ks, r.start) == Some(p[j].start) {
        NoKeyframeAfterPrev(ks, r.start);
      } else {
        NoKeyframeBeforeNext(ks, r.end);
      }
    }
  }

  /**
   * A cut at the very start: `[0, 5)` of a 100-second video with keyframes
   * every 2 seconds emits only the re-encoded `[5, 6)`, moves the cursor to
   * 6, and the rest is copied.
   */
  lemma ExampleCutAtStart()
    ensures SweepAll([0.0, 2.0, 4.0, 6.0, 8.0], [Removal(0.0, 5.0)], 100.0)
      == Some(Sweep(6.0, [KeepSegment(5.0, Some(6.0), true)]))
    ensures Plan([0.0, 2.0, 4.0, 6.0, 8.0], [Removal(0.0, 5.0)], 100.0)
      == Some([KeepSegment(5.0, Some(6.0), true), KeepSegment(6.0, Some(100.0), false)])
  {
    var ks, r := [0.0, 2.0, 4.0, 6.0, 8.0], Removal(0.0, 5.0);
    SplitIsCountAtMost(ks, 0.0, 1);
    SplitIsCountAtMost(ks, 5.0, 3);
    assert PrevKeyframe(ks, 0.0) == Some(0.0) && NextKeyframe(ks, 5.0) == Some(6.0);
    assert [] + CopyPart(0.0, r, 0.0) + PreCutPart(r, 0.0) + PostCutPart(r, Some(6.0), 100.0)
      == [KeepSegment(5.0, Some(6.0), true)];
    assert Step(ks, Sweep(0.0, []), r, 100.0) == Some(Sweep(6.0, [KeepSegment(5.0, Some(6.0), true)]));
    SweepOne(ks, r, 100.0);
    assert [KeepSegment(5.0, Some(6.0), true)] + Trailing(6.0, 100.0)
      == [KeepSegment(5.0, Some(6.0), true), KeepSegment(6.0, Some(100.0), false)];
  }

  /**
   * A cut at the very end: `[95, 100)` of a 100-second video copies up to
   * the keyframe 90, re-encodes `[90, 95)`, and emits nothing after the cut.
   */
  lemma ExampleCutAtEnd()
    ensures Plan([0.0, 30.0, 60.0, 90.0], [Removal(95.0, 100.0)], 100.0)
      == Some([KeepSegment(0.0, Some(90.0), false), KeepSegment(90.0, Some(95.0), true)])
  {
    var ks, r := [0.0, 30.0, 60.0, 90.0], Removal(95.0, 100.0);
    SplitIsCountAtMost(ks, 95.0, 4);
    SplitIsCountAtMost(ks, 100.0, 4);
    assert PrevKeyframe(ks, 95.0) == Some(90.0) && NextKeyframe(ks, 100.0) == None;
    assert [] + CopyPart(0.0, r, 90.0) + PreCutPart(r, 90.0) + PostCutPart(r, None, 100.0)
      == [KeepSegment(0.0, Some(90.0), false), KeepSegment(90.0, Some(95.0), true)];
    assert Step(ks, Sweep(0.0, []), r, 100.0)
      == Some(Sweep(100.0, [KeepSegment(0.0, Some(90.0), false), KeepSegment(90.0, Some(95.0), true)]));
    SweepOne(ks, r, 100.0);
    assert Trailing(100.0, 100.0) == [];
    assert [KeepSegment(0.0, Some(90.0), false), KeepSegment(90.0, Some(95.0), true)] + []
      == [KeepSegment(0.0, Some(90.0), false), KeepSegment(90.0, Some(95.0), true)];
  }

  /**
   * Two sorted, disjoint ranges inside one keyframe interval: the second
   * range's stream copy runs backwards, from 20 to 10, and its pre-cut sliver
   * `[10, 15)` puts the first removed range `[12, 13)` back into the output.
   */
  lemma ExampleRangesInOneKeyframeInterval()
    ensures Plan([0.0, 10.0, 20.0, 30.0], [Removal(12.0, 13.0), Removal(15.0, 16.0)], 40.0)
      == Some([KeepSegment(0.0, Some(10.0), false), KeepSegment(10.0, Some(12.0), true),
               KeepSegment(13.0, Some(20.0), true),
               KeepSegment(20.0, Some(10.0), false), KeepSegment(10.0, Some(15.0), true),
               KeepSegment(16.0, Some(20.0), true),
               KeepSegment(20.0, Some(40.0), false)])
  {
    var ks, r1, r2 := [0.0, 10.0, 20.0, 30.0], Removal(12.0, 13.0), Removal(15.0, 16.0);
    SplitIsCountAtMost(ks, 12.0, 2);
    SplitIsCountAtMost(ks, 13.0, 2);
    SplitIsCountAtMost(ks, 15.0, 2);
    SplitIsCountAtMost(ks, 16.0, 2);
    assert PrevKeyframe(ks, 12.0) == Some(10.0) && NextKeyframe(ks, 13.0) == Some(20.0);
    assert PrevKeyframe(ks, 15.0) == Some(10.0) && NextKeyframe(ks, 16.0) == Some(20.0);
    var first := [KeepSegment(0.0, Some(10.0), false), KeepSegment(10.0, Some(12.0), true),
                  KeepSegment(13.0, Some(20.0), true)];
    var second := [KeepSegment(20.0, Some(10.0), false), KeepSegment(10.0, Some(15.0), true),
                   KeepSegment(16.0, Some(20.0), true)];
    assert [] + CopyPart(0.0, r1, 10.0) + PreCutPart(r1, 10.0) + PostCutPart(r1, Some(20.0), 40.0) == first;
    assert Step(ks, Sweep(0.0, []), r1, 40.0) == Some(Sweep(20.0, first));
    SweepOne(ks, r1, 40.0);
    assert first + CopyPart(20.0, r2, 10.0) + PreCutPart(r2, 10.0) + PostCutPart(r2, Some(20.0), 40.0)
      == first + second;
    assert Step(ks, Sweep(20.0, first), r2, 40.0) == Some(Sweep(20.0, first + second));
    var rs := [r1, r2];
    assert rs[..1] == [r1];
    assert SweepAll(ks, rs, 40.0) == Some(Sweep(20.0, first + second));
    assert Trailing(20.0, 40.0) == [KeepSegment(20.0, Some(40.0), false)];
    assert Plan(ks, rs, 40.0) == Some(first + second + [KeepSegment(20.0, Some(40.0), false)]);
    assert first + second + [KeepSegment(20.0, Some(40.0), false)]
      == [first[0], first[1], first[2], second[0], second[1], second[2], KeepSegment(20.0, Some(40.0), false)];
  }

  /**
   * A range that ends after the last keyframe but before the end of the
   * video: there is no next keyframe, so the post-cut sliver `[15, ...)` has
   * no end, and the cursor jumps to the end of the video.
   */
  lemma ExampleRangePastLastKeyframe()
    ensures Plan([0.0, 10.0], [Removal(5.0, 15.0)], 20.0)
      == Some([KeepSegment(0.0, Some(0.0), false), KeepSegment(0.0, Some(5.0), true),
               KeepSegment(15.0, None, true)])
  {
    var ks, r := [0.0, 10.0], Removal(5.0, 15.0);
    var segs := [KeepSegment(0.0, Some(0.0), false), KeepSegment(0.0, Some(5.0), true),
                 KeepSegment(15.0, None, true)];
    SplitIsCountAtMost(ks, 5.0, 1);
    SplitIsCountAtMost(ks, 15.0, 2);
    assert PrevKeyframe(ks, 5.0) == Some(0.0) && NextKeyframe(ks, 15.0) == None;
    assert [] + CopyPart(0.0, r, 0.0) + PreCutPart(r, 0.0) + PostCutPart(r, None, 20.0) == segs;
    assert Step(ks, Sweep(0.0, []), r, 20.0) == Some(Sweep(20.0, segs));
    SweepOne(ks, r, 20.0);
    assert Trailing(20.0, 20.0) == [];
    assert segs + [] == segs;
  }

  /**
   * A range before the first keyframe: index -1 wraps the previous keyframe
   * round to the last one, 15, so the stream copy `[0, 15)` runs over the
   * removed range `[1, 3)` and the pre-cut sliver `[15, 1)` runs backwards.
   */
  lemma ExampleRangeBeforeFirstKeyframe()
    ensures Plan([5.0, 10.0, 15.0], [Removal(1.0, 3.0)], 20.0)
      == Some([KeepSegment(0.0, Some(15.0), false), KeepSegment(15.0, Some(1.0), true),
               KeepSegment(3.0, Some(5.0), true), KeepSegment(5.0, Some(20.0), false)])
  {
    var ks, r := [5.0, 10.0, 15.0], Removal(1.0, 3.0);
    var segs := [KeepSegment(0.0, Some(15.0), false), KeepSegment(15.0, Some(1.0), true),
                 KeepSegment(3.0, Some(5.0), true)];
    SplitIsCountAtMost(ks, 1.0, 0);
    SplitIsCountAtMost(ks, 3.0, 0);
    assert PrevKeyframe(ks, 1.0) == Some(15.0) && NextKeyframe(ks, 3.0) == Some(5.0);
    assert [] + CopyPart(0.0, r, 15.0) + PreCutPart(r, 15.0) + PostCutPart(r, Some(5.0), 20.0) == segs;
    assert Step(ks, Sweep(0.0, []), r, 20.0) == Some(Sweep(5.0, segs));
    SweepOne(ks, r, 20.0);
    assert Trailing(5.0, 20.0) == [KeepSegment(5.0, Some(20.0), false)];
    assert segs + [KeepSegment(5.0, Some(20.0), false)]
      == [segs[0], segs[1], segs[2], KeepSegment(5.0, Some(20.0), false)];
  }

  /** The sweep over a single range is one Step from the initial state. */
  lemma SweepOne(ks: seq<real>, r: Removal, lastFrame: real)
    ensures SweepAll(ks, [r], lastFrame) == Step(ks, Sweep(0.0, []), r, lastFrame)
  {
    assert [r][..0] == [];
  }
}
