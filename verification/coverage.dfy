/**
 * When the plan covers the video. The timeline of a plan interleaves its
 * kept segments with the removal ranges in the order the sweep meets them.
 * On well-spaced input the timeline runs from 0 to the end of the video
 * without gaps or overlaps, so kept and removed footage together tile the
 * whole video exactly once.
 */
module PlanCoverage {
  import opened Wrappers
  import opened Keyframes
  import opened Planner

  /** A stretch of the source timeline: kept (copied or re-encoded) or removed. */
  datatype Piece = Kept(seg: KeepSegment) | Removed(range: Removal)

  function Lo(p: Piece): real {
    match p
    case Kept(seg) => seg.start
    case Removed(r) => r.start
  }

  function Hi(p: Piece): Option<real> {
    match p
    case Kept(seg) => seg.end
    case Removed(r) => Some(r.end)
  }

  /** The piece covers time `t`. */
  predicate Covers(p: Piece, t: real) {
    Hi(p).Some? && Lo(p) <= t < Hi(p).value
  }

  /**
   * The pieces run from `from` to `to`: each has an end not before its
   * start, and each starts where the one before it ends.
   */
  predicate Contiguous(ps: seq<Piece>, from: real, to: real)
    decreases |ps|
  {
    if ps == [] then from == to
    else
      && Hi(ps[0]).Some?
      && Lo(ps[0]) == from <= Hi(ps[0]).value
      && Contiguous(ps[1..], Hi(ps[0]).value, to)
  }

  /** Kept segments, as pieces. */
  function Wrap(segs: seq<KeepSegment>): (ps: seq<Piece>)
    ensures |ps| == |segs|
    ensures forall i :: 0 <= i < |segs| ==> ps[i] == Kept(segs[i])
  {
    if segs == [] then [] else [Kept(segs[0])] + Wrap(segs[1..])
  }

  /** The kept segments of a timeline, in order. */
  function KeptSegments(ps: seq<Piece>): seq<KeepSegment> {
    if ps == [] then []
    else (if ps[0].Kept? then [ps[0].seg] else []) + KeptSegments(ps[1..])
  }

  /** The removal ranges of a timeline, in order. */
  function RemovedRanges(ps: seq<Piece>): seq<Removal> {
    if ps == [] then []
    else (if ps[0].Removed? then [ps[0].range] else []) + RemovedRanges(ps[1..])
  }

  /** The pieces of one iteration: copy, pre-cut sliver, the cut, post-cut sliver. */
  function StepPieces(cursor: real, r: Removal, prev: real, next: Option<real>, lastFrame: real): seq<Piece> {
    Wrap(CopyPart(cursor, r, prev)) + Wrap(PreCutPart(r, prev)) + [Removed(r)] + Wrap(PostCutPart(r, next, lastFrame))
  }

  /** The timeline of the sweep over `rs`, built alongside SweepAll. */
  function Timeline(ks: seq<real>, rs: seq<Removal>, lastFrame: real): seq<Piece>
    decreases |rs|
  {
    if rs == [] || ks == [] then []
    else
      var init, r := rs[..|rs| - 1], rs[|rs| - 1];
      Timeline(ks, init, lastFrame)
        + StepPieces(SweepAll(ks, init, lastFrame).value.cursor, r, PrevKeyframe(ks, r.start).value,
                     NextKeyframe(ks, r.end), lastFrame)
  }

  /** The timeline of the whole plan: the sweep's, then the trailing copy. */
  function PlanTimeline(ks: seq<real>, rs: seq<Removal>, lastFrame: real): seq<Piece> {
    match SweepAll(ks, rs, lastFrame)
    case None => []
    case Some(s) => Timeline(ks, rs, lastFrame) + Wrap(Trailing(s.cursor, lastFrame))
  }

  /**
   * Input on which the plan covers the video (sufficient, not necessary):
   * ascending keyframes, none below 0, the last at or before the end of the
   * video, and at least one when there is a range; every range starts at or
   * after the first keyframe, does not end before it starts, and ends before
   * the last keyframe or at the end of the video;
   * and the keyframe after each range is at or before the keyframe before
   * the next range, so no two ranges share a keyframe interval.
   */
  predicate WellSpaced(ks: seq<real>, rs: seq<Removal>, lastFrame: real) {
    && Sorted(ks) && 0.0 <= lastFrame
    && (rs != [] ==> ks != [])
    && (ks != [] ==> 0.0 <= ks[0] && ks[|ks| - 1] <= lastFrame)
    && (forall i :: 0 <= i < |rs| ==> ks[0] <= rs[i].start <= rs[i].end)
    && (forall i :: 0 <= i < |rs| ==> rs[i].end == lastFrame || rs[i].end < ks[|ks| - 1])
    && (forall i :: 0 <= i < |rs| - 1 ==>
          NextKeyframe(ks, rs[i].end).Some? &&
          NextKeyframe(ks, rs[i].end).value <= PrevKeyframe(ks, rs[i + 1].start).value)
  }

  // ---- sequences of pieces

  lemma {:induction false} KeptDistributes(a: seq<Piece>, b: seq<Piece>)
    ensures KeptSegments(a + b) == KeptSegments(a) + KeptSegments(b)
    ensures RemovedRanges(a + b) == RemovedRanges(a) + RemovedRanges(b)
    decreases |a|
  {
    if a != [] {
      assert (a + b)[1..] == a[1..] + b;
      KeptDistributes(a[1..], b);
    } else {
      assert a + b == b;
    }
  }

  lemma {:induction false} WrapKeepsSegments(segs: seq<KeepSegment>)
    ensures KeptSegments(Wrap(segs)) == segs
    ensures RemovedRanges(Wrap(segs)) == []
    decreases |segs|
  {
    if segs != [] {
      assert Wrap(segs)[1..] == Wrap(segs[1..]);
      WrapKeepsSegments(segs[1..]);
    }
  }

  lemma {:induction false} ContiguousAppend(a: seq<Piece>, b: seq<Piece>, x: real, y: real, z: real)
    requires Contiguous(a, x, y) && Contiguous(b, y, z)
    ensures Contiguous(a + b, x, z)
    decreases |a|
  {
    if a == [] {
      assert a + b == b;
    } else {
      ContiguousAppend(a[1..], b, Hi(a[0]).value, y, z);
      assert (a + b)[1..] == a[1..] + b;
    }
  }

  /** A single kept segment, or none at all, bridges its two ends. */
  lemma ContiguousAtMostOne(segs: seq<KeepSegment>, x: real, y: real)
    requires |segs| <= 1
    requires segs == [] ==> x == y
    requires segs != [] ==> segs[0].start == x && segs[0].end == Some(y) && x <= y
    ensures Contiguous(Wrap(segs), x, y)
  {
  }

  /** The pieces of one iteration run from the cursor to the next cursor. */
  lemma StepPiecesContiguous(cursor: real, r: Removal, prev: real, next: Option<real>, lastFrame: real)
    requires cursor <= prev <= r.start <= r.end
    requires cursor == r.start ==> prev == r.start
    requires r.start == 0.0 ==> prev == r.start
    requires r.end != lastFrame ==> next.Some? && r.end < next.value && next.value != 0.0
    requires r.end == lastFrame ==> !Truthy(next)
    ensures Contiguous(StepPieces(cursor, r, prev, next, lastFrame), cursor, NextCursor(next, lastFrame))
  {
    var copy, pre, post := CopyPart(cursor, r, prev), PreCutPart(r, prev), PostCutPart(r, next, lastFrame);
    ContiguousAtMostOne(copy, cursor, prev);
    ContiguousAtMostOne(pre, prev, r.start);
    ContiguousAtMostOne(post, r.end, NextCursor(next, lastFrame));
    assert Contiguous([Removed(r)], r.start, r.end);
    ContiguousAppend(Wrap(copy), Wrap(pre), cursor, prev, r.start);
    ContiguousAppend(Wrap(copy) + Wrap(pre), [Removed(r)], cursor, r.start, r.end);
    ContiguousAppend(Wrap(copy) + Wrap(pre) + [Removed(r)], Wrap(post), cursor, r.end, NextCursor(next, lastFrame));
  }

  // ---- the timeline matches the plan

  lemma StepPiecesMatchStep(cursor: real, r: Removal, prev: real, next: Option<real>, lastFrame: real)
    ensures KeptSegments(StepPieces(cursor, r, prev, next, lastFrame))
      == CopyPart(cursor, r, prev) + PreCutPart(r, prev) + PostCutPart(r, next, lastFrame)
    ensures RemovedRanges(StepPieces(cursor, r, prev, next, lastFrame)) == [r]
  {
    var copy, pre, post := CopyPart(cursor, r, prev), PreCutPart(r, prev), PostCutPart(r, next, lastFrame);
    WrapKeepsSegments(copy);
    WrapKeepsSegments(pre);
    WrapKeepsSegments(post);
    assert [Removed(r)][1..] == [];
    assert KeptSegments([Removed(r)]) == [] && RemovedRanges([Removed(r)]) == [r];
    KeptDistributes(Wrap(copy), Wrap(pre));
    KeptDistributes(Wrap(copy) + Wrap(pre), [Removed(r)]);
    KeptDistributes(Wrap(copy) + Wrap(pre) + [Removed(r)], Wrap(post));
  }

  /** One more range adds one step to the sweep's kept segments. */
  lemma SweepAllLast(ks: seq<real>, rs: seq<Removal>, lastFrame: real)
    requires rs != [] && SweepAll(ks, rs, lastFrame).Some?
    ensures ks != [] && SweepAll(ks, rs[..|rs| - 1], lastFrame).Some?
    ensures
      var r, c := rs[|rs| - 1], SweepAll(ks, rs[..|rs| - 1], lastFrame).value.cursor;
      var prev, next := PrevKeyframe(ks, r.start).value, NextKeyframe(ks, r.end);
      SweepAll(ks, rs, lastFrame).value.keep
        == SweepAll(ks, rs[..|rs| - 1], lastFrame).value.keep
           + (CopyPart(c, r, prev) + PreCutPart(r, prev) + PostCutPart(r, next, lastFrame))
  {
  }

  /** One more range adds one step's pieces to the timeline. */
  lemma TimelineLast(ks: seq<real>, rs: seq<Removal>, lastFrame: real)
    requires rs != [] && ks != []
    ensures
      var r, c := rs[|rs| - 1], SweepAll(ks, rs[..|rs| - 1], lastFrame).value.cursor;
      Timeline(ks, rs, lastFrame) == Timeline(ks, rs[..|rs| - 1], lastFrame)
        + StepPieces(c, r, PrevKeyframe(ks, r.start).value, NextKeyframe(ks, r.end), lastFrame)
  {
  }

  /** Appending one step's pieces appends its kept segments and its range. */
  lemma AppendStepPieces(head: seq<Piece>, keep: seq<KeepSegment>, ranges: seq<Removal>,
                         cursor: real, r: Removal, prev: real, next: Option<real>, lastFrame: real)
    requires KeptSegments(head) == keep && RemovedRanges(head) == ranges
    ensures KeptSegments(head + StepPieces(cursor, r, prev, next, lastFrame))
      == keep + (CopyPart(cursor, r, prev) + PreCutPart(r, prev) + PostCutPart(r, next, lastFrame))
    ensures RemovedRanges(head + StepPieces(cursor, r, prev, next, lastFrame)) == ranges + [r]
  {
    StepPiecesMatchStep(cursor, r, prev, next, lastFrame);
    KeptDistributes(head, StepPieces(cursor, r, prev, next, lastFrame));
  }

  /** The inductive step of TimelineMatchesSweep. */
  lemma TimelineMatchesSweepLast(ks: seq<real>, rs: seq<Removal>, lastFrame: real)
    requires rs != [] && SweepAll(ks, rs, lastFrame).Some?
    requires SweepAll(ks, rs[..|rs| - 1], lastFrame).Some?
    requires KeptSegments(Timeline(ks, rs[..|rs| - 1], lastFrame)) == SweepAll(ks, rs[..|rs| - 1], lastFrame).value.keep
    requires RemovedRanges(Timeline(ks, rs[..|rs| - 1], lastFrame)) == rs[..|rs| - 1]
    ensures KeptSegments(Timeline(ks, rs, lastFrame)) == SweepAll(ks, rs, lastFrame).value.keep
    ensures RemovedRanges(Timeline(ks, rs, lastFrame)) == rs
  {
    var init, r := rs[..|rs| - 1], rs[|rs| - 1];
    var s := SweepAll(ks, init, lastFrame).value;
    var prev, next := PrevKeyframe(ks, r.start).value, NextKeyframe(ks, r.end);
    var head, step := Timeline(ks, init, lastFrame), StepPieces(s.cursor, r, prev, next, lastFrame);
    var parts := CopyPart(s.cursor, r, prev) + PreCutPart(r, prev) + PostCutPart(r, next, lastFrame);
    SweepAllLast(ks, rs, lastFrame);
    TimelineLast(ks, rs, lastFrame);
    assert Timeline(ks, rs, lastFrame) == head + step;
    assert SweepAll(ks, rs, lastFrame).value.keep == s.keep + parts;
    AppendStepPieces(head, s.keep, init, s.cursor, r, prev, next, lastFrame);
    LastSplit(rs);
  }

  lemma LastSplit<T>(xs: seq<T>)
    requires xs != []
    ensures xs[..|xs| - 1] + [xs[|xs| - 1]] == xs
  {
  }

  lemma {:induction false} TimelineMatchesSweep(ks: seq<real>, rs: seq<Removal>, lastFrame: real)
    requires SweepAll(ks, rs, lastFrame).Some?
    ensures KeptSegments(Timeline(ks, rs, lastFrame)) == SweepAll(ks, rs, lastFrame).value.keep
    ensures RemovedRanges(Timeline(ks, rs, lastFrame)) == rs
    decreases |rs|
  {
    if rs != [] {
      SweepAllLast(ks, rs, lastFrame);
      TimelineMatchesSweep(ks, rs[..|rs| - 1], lastFrame);
      TimelineMatchesSweepLast(ks, rs, lastFrame);
    }
  }

  /**
   * The kept segments of the plan's timeline are exactly the plan, and its
   * removed stretches are exactly the removal ranges, in their order.
   */
  lemma PlanTimelineMatchesPlan(ks: seq<real>, rs: seq<Removal>, lastFrame: real)
    requires Plan(ks, rs, lastFrame).Some?
    ensures KeptSegments(PlanTimeline(ks, rs, lastFrame)) == Plan(ks, rs, lastFrame).value
    ensures RemovedRanges(PlanTimeline(ks, rs, lastFrame)) == rs
  {
    var s := SweepAll(ks, rs, lastFrame).value;
    TimelineMatchesSweep(ks, rs, lastFrame);
    WrapKeepsSegments(Trailing(s.cursor, lastFrame));
    KeptDistributes(Timeline(ks, rs, lastFrame), Wrap(Trailing(s.cursor, lastFrame)));
  }

  // ---- well-spaced input gives a contiguous timeline

  lemma SortedAtLeastFirst(ks: seq<real>, k: real)
    requires Sorted(ks) && k in ks
    ensures ks[0] <= k <= ks[|ks| - 1]
  {
    var j :| 0 <= j < |ks| && ks[j] == k;
  }

  lemma WellSpacedPrefix(ks: seq<real>, rs: seq<Removal>, lastFrame: real)
    requires WellSpaced(ks, rs, lastFrame) && rs != []
    ensures WellSpaced(ks, rs[..|rs| - 1], lastFrame)
  {
  }

  /** After at least one range, the cursor is where the last range sent it. */
  lemma SweepCursorAfterLast(ks: seq<real>, rs: seq<Removal>, lastFrame: real)
    requires rs != [] && SweepAll(ks, rs, lastFrame).Some?
    ensures SweepAll(ks, rs, lastFrame).value.cursor == NextCursor(NextKeyframe(ks, rs[|rs| - 1].end), lastFrame)
  {
  }

  lemma {:induction false} TimelineContiguous(ks: seq<real>, rs: seq<Removal>, lastFrame: real)
    requires WellSpaced(ks, rs, lastFrame)
    ensures SweepAll(ks, rs, lastFrame).Some?
    ensures Contiguous(Timeline(ks, rs, lastFrame), 0.0, SweepAll(ks, rs, lastFrame).value.cursor)
    decreases |rs|
  {
    if rs != [] {
      var init, r := rs[..|rs| - 1], rs[|rs| - 1];
      WellSpacedPrefix(ks, rs, lastFrame);
      TimelineContiguous(ks, init, lastFrame);
      var c := SweepAll(ks, init, lastFrame).value.cursor;
      var prev, next := PrevKeyframe(ks, r.start).value, NextKeyframe(ks, r.end);
      PrevKeyframeIsGreatestAtMost(ks, r.start);
      SortedAtLeastFirst(ks, prev);
      NextKeyframeIsLeastAbove(ks, r.end);
      if init == [] {
        assert c == 0.0;
      } else {
        var last := init[|init| - 1];
        assert last == rs[|rs| - 2];
        SweepCursorAfterLast(ks, init, lastFrame);
        NextKeyframeIsLeastAbove(ks, last.end);
        assert c == NextKeyframe(ks, last.end).value;
      }
      assert c <= prev;
      StepPiecesContiguous(c, r, prev, next, lastFrame);
      ContiguousAppend(Timeline(ks, init, lastFrame), StepPieces(c, r, prev, next, lastFrame),
                       0.0, c, NextCursor(next, lastFrame));
      SweepCursorAfterLast(ks, rs, lastFrame);
    }
  }

  // ---- a contiguous timeline covers each instant exactly once

  /** Some piece covers time `t`. */
  ghost predicate CoveredAt(ps: seq<Piece>, t: real) {
    exists i :: 0 <= i < |ps| && Covers(ps[i], t)
  }

  /** Every instant in [from, to) is covered by exactly one piece. */
  ghost predicate TilesOnce(ps: seq<Piece>, from: real, to: real) {
    && (forall t :: from <= t < to ==> CoveredAt(ps, t))
    && (forall t, i, j :: 0 <= i < |ps| && 0 <= j < |ps| && Covers(ps[i], t) && Covers(ps[j], t) ==> i == j)
  }

  lemma {:induction false} ContiguousCovers(ps: seq<Piece>, from: real, to: real, t: real)
    requires Contiguous(ps, from, to) && from <= t < to
    ensures CoveredAt(ps, t)
    decreases |ps|
  {
    if t < Hi(ps[0]).value {
      assert Covers(ps[0], t);
    } else {
      var rest := ps[1..];
      ContiguousCovers(rest, Hi(ps[0]).value, to, t);
      var i :| 0 <= i < |rest| && Covers(rest[i], t);
      assert rest[i] == ps[i + 1];
    }
  }

  /** No piece of a contiguous run starts before the run does. */
  lemma {:induction false} ContiguousStartsAfter(ps: seq<Piece>, from: real, to: real, j: nat)
    requires Contiguous(ps, from, to) && j < |ps|
    ensures from <= Lo(ps[j])
    decreases j
  {
    if 0 < j {
      ContiguousStartsAfter(ps[1..], Hi(ps[0]).value, to, j - 1);
    }
  }

  /** An earlier piece ends no later than a later one starts. */
  lemma {:induction false} ContiguousOrdered(ps: seq<Piece>, from: real, to: real, i: nat, j: nat)
    requires Contiguous(ps, from, to) && i < j < |ps|
    ensures Hi(ps[i]).Some? && Hi(ps[i]).value <= Lo(ps[j])
    decreases i
  {
    if i == 0 {
      ContiguousStartsAfter(ps[1..], Hi(ps[0]).value, to, j - 1);
    } else {
      ContiguousOrdered(ps[1..], Hi(ps[0]).value, to, i - 1, j - 1);
    }
  }

  lemma ContiguousCoversOnce(ps: seq<Piece>, from: real, to: real, t: real, i: nat, j: nat)
    requires Contiguous(ps, from, to) && i < |ps| && j < |ps|
    requires Covers(ps[i], t) && Covers(ps[j], t)
    ensures i == j
  {
    if i < j {
      ContiguousOrdered(ps, from, to, i, j);
    } else if j < i {
      ContiguousOrdered(ps, from, to, j, i);
    }
  }

  /** A contiguous run of pieces tiles its span. */
  lemma ContiguousTiles(ps: seq<Piece>, from: real, to: real)
    requires Contiguous(ps, from, to)
    ensures TilesOnce(ps, from, to)
  {
    forall t | from <= t < to ensures CoveredAt(ps, t) {
      ContiguousCovers(ps, from, to, t);
    }
    forall t, i, j | 0 <= i < |ps| && 0 <= j < |ps| && Covers(ps[i], t) && Covers(ps[j], t) ensures i == j {
      ContiguousCoversOnce(ps, from, to, t, i, j);
    }
  }

  /** On well-spaced input the sweep ends at or before the end of the video. */
  lemma SweepEndsInVideo(ks: seq<real>, rs: seq<Removal>, lastFrame: real)
    requires WellSpaced(ks, rs, lastFrame) && SweepAll(ks, rs, lastFrame).Some?
    ensures SweepAll(ks, rs, lastFrame).value.cursor <= lastFrame
  {
    if rs != [] {
      SweepCursorAfterLast(ks, rs, lastFrame);
      var next := NextKeyframe(ks, rs[|rs| - 1].end);
      if next.Some? { SortedAtLeastFirst(ks, next.value); }
    }
  }

  /**
   * Coverage. On well-spaced input the plan exists, and its timeline (the
   * plan's segments with the removal ranges put back where the sweep met
   * them) runs contiguously from 0 to the end of the video: every segment
   * has an end, each piece starts where the previous one ends, and every
   * instant of the video lies in exactly one piece, kept or removed.
   */
  lemma PlanCoversVideo(ks: seq<real>, rs: seq<Removal>, lastFrame: real)
    requires WellSpaced(ks, rs, lastFrame)
    ensures Plan(ks, rs, lastFrame).Some?
    ensures KeptSegments(PlanTimeline(ks, rs, lastFrame)) == Plan(ks, rs, lastFrame).value
    ensures RemovedRanges(PlanTimeline(ks, rs, lastFrame)) == rs
    ensures Contiguous(PlanTimeline(ks, rs, lastFrame), 0.0, lastFrame)
    ensures TilesOnce(PlanTimeline(ks, rs, lastFrame), 0.0, lastFrame)
  {
    TimelineContiguous(ks, rs, lastFrame);
    PlanTimelineMatchesPlan(ks, rs, lastFrame);
    SweepEndsInVideo(ks, rs, lastFrame);
    var c := SweepAll(ks, rs, lastFrame).value.cursor;
    var tl, tail := Timeline(ks, rs, lastFrame), Wrap(Trailing(c, lastFrame));
    assert PlanTimeline(ks, rs, lastFrame) == tl + tail;
    ContiguousAtMostOne(Trailing(c, lastFrame), c, lastFrame);
    ContiguousAppend(tl, tail, 0.0, c, lastFrame);
    ContiguousTiles(tl + tail, 0.0, lastFrame);
  }

  /** Every kept segment of a contiguous run has an end, not before its start. */
  lemma {:induction false} ContiguousKeptHaveEnds(ps: seq<Piece>, from: real, to: real)
    requires Contiguous(ps, from, to)
    ensures forall seg :: seg in KeptSegments(ps) ==> seg.end.Some? && from <= seg.start <= seg.end.value <= to
    decreases |ps|
  {
    if ps != [] {
      ContiguousKeptHaveEnds(ps[1..], Hi(ps[0]).value, to);
      ContiguousEndsBefore(ps, from, to);
    }
  }

  /** The first piece of a contiguous run ends no later than the run. */
  lemma {:induction false} ContiguousEndsBefore(ps: seq<Piece>, from: real, to: real)
    requires Contiguous(ps, from, to) && ps != []
    ensures Hi(ps[0]).value <= to
    decreases |ps|
  {
    if |ps| > 1 {
      ContiguousEndsBefore(ps[1..], Hi(ps[0]).value, to);
    }
  }

  /**
   * On well-spaced input every segment of the plan has an end, and lies
   * forwards inside the video: 0 <= start <= end <= lastFrame.
   */
  lemma PlanSegmentsInVideo(ks: seq<real>, rs: seq<Removal>, lastFrame: real)
    requires WellSpaced(ks, rs, lastFrame)
    ensures Plan(ks, rs, lastFrame).Some?
    ensures forall seg :: seg in Plan(ks, rs, lastFrame).value ==>
      seg.end.Some? && 0.0 <= seg.start <= seg.end.value <= lastFrame
  {
    PlanCoversVideo(ks, rs, lastFrame);
    ContiguousKeptHaveEnds(PlanTimeline(ks, rs, lastFrame), 0.0, lastFrame);
  }
}
