/**
 * The keyframe index of yt-cut.py: an ascending list of keyframe timestamps
 * (seconds) with the two lookups the planner uses, both built on Python's
 * `bisect.bisect_right`.
 */
module Keyframes {
  import opened Wrappers

  /** Ascending order, the assumption `bisect` makes of its list. */
  predicate Sorted(ks: seq<real>) {
    forall i, j :: 0 <= i < j < |ks| ==> ks[i] <= ks[j]
  }

  /**
   * Reference definition of the rightmost insertion point: the length of the
   * leading run of keyframes that are at most `t`. It is what `bisect_right`
   * returns only when the list is ascending; on other lists the lookups built
   * on it describe this definition, not the script.
   */
  function CountAtMost(ks: seq<real>, t: real): (n: nat)
    ensures n <= |ks|
  {
    if ks == [] || t < ks[0] then 0 else 1 + CountAtMost(ks[1..], t)
  }

  /** Any index that splits `ks` into "at most t" and "above t" is CountAtMost. */
  lemma {:induction false} SplitIsCountAtMost(ks: seq<real>, t: real, i: nat)
    requires i <= |ks|
    requires forall j :: 0 <= j < i ==> ks[j] <= t
    requires forall j :: i <= j < |ks| ==> t < ks[j]
    ensures CountAtMost(ks, t) == i
  {
    if ks != [] && ks[0] <= t {
      assert 0 < i;
      SplitIsCountAtMost(ks[1..], t, i - 1);
    }
  }

  /** On a sorted list, CountAtMost splits it into "at most t" and "above t". */
  lemma {:induction false} CountAtMostSplits(ks: seq<real>, t: real)
    requires Sorted(ks)
    ensures forall j :: 0 <= j < CountAtMost(ks, t) ==> ks[j] <= t
    ensures forall j :: CountAtMost(ks, t) <= j < |ks| ==> t < ks[j]
  {
    if ks != [] && ks[0] <= t {
      var rest := ks[1..];
      assert Sorted(rest) by {
        forall i, j | 0 <= i < j < |rest| ensures rest[i] <= rest[j] {
          assert rest[i] == ks[i + 1] && rest[j] == ks[j + 1];
        }
      }
      CountAtMostSplits(rest, t);
      forall j | 1 <= j < |ks| ensures ks[j] == rest[j - 1] { }
    }
  }

  /**
   * `bisect.bisect_right`: binary search for the rightmost insertion point of
   * `t`, with the same `lo`/`hi` loop as the Python library.
   */
  method BisectRight(ks: seq<real>, t: real) returns (i: nat)
    requires Sorted(ks)
    ensures i == CountAtMost(ks, t)
    ensures forall j :: 0 <= j < i ==> ks[j] <= t
    ensures forall j :: i <= j < |ks| ==> t < ks[j]
  {
    var lo, hi := 0, |ks|;
    while lo < hi
      invariant 0 <= lo <= hi <= |ks|
      invariant forall j :: 0 <= j < lo ==> ks[j] <= t
      invariant forall j :: hi <= j < |ks| ==> t < ks[j]
    {
      var mid := (lo + hi) / 2;
      if t < ks[mid] {
        hi := mid;
      } else {
        lo := mid + 1;
      }
    }
    SplitIsCountAtMost(ks, t, lo);
    i := lo;
  }

  /**
   * `getPrevKeyframe`: `keyframes[i-1]` with `i = bisect_right(keyframes, t)`.
   * Python's negative indexing makes `i == 0` yield the LAST keyframe; an
   * empty list raises IndexError, modelled as `None`.
   */
  function PrevKeyframe(ks: seq<real>, t: real): (r: Option<real>)
    ensures r.None? <==> ks == []
    ensures r.Some? ==> r.value in ks
  {
    if ks == [] then None
    else
      var i := CountAtMost(ks, t);
      if i == 0 then Some(ks[|ks| - 1]) else Some(ks[i - 1])
  }

  /**
   * `getNextKeyframe`: `keyframes[i]` with `i = bisect_right(keyframes, t)`,
   * or `None` when `i` is the length of the list.
   */
  function NextKeyframe(ks: seq<real>, t: real): (r: Option<real>)
    ensures r.Some? ==> r.value in ks
  {
    var i := CountAtMost(ks, t);
    if i < |ks| then Some(ks[i]) else None
  }

  /** The executable `getPrevKeyframe`, going through the binary search. */
  method GetPrevKeyframe(ks: seq<real>, t: real) returns (r: Option<real>)
    requires Sorted(ks)
    ensures r == PrevKeyframe(ks, t)
    ensures r.None? <==> ks == []
  {
    var i := BisectRight(ks, t);
    if ks == [] {
      r := None;
    } else if i == 0 {
      r := Some(ks[|ks| - 1]);
    } else {
      r := Some(ks[i - 1]);
    }
  }

  /** The executable `getNextKeyframe`, going through the binary search. */
  method GetNextKeyframe(ks: seq<real>, t: real) returns (r: Option<real>)
    requires Sorted(ks)
    ensures r == NextKeyframe(ks, t)
    ensures r.Some? ==> t < r.value
  {
    var i := BisectRight(ks, t);
    r := if i < |ks| then Some(ks[i]) else None;
  }

  /**
   * When some keyframe is at or before `t`, PrevKeyframe is the greatest
   * keyframe at or before `t`: it is at most `t` and no keyframe lies in
   * between. An exact match returns `t` itself.
   */
  lemma PrevKeyframeIsGreatestAtMost(ks: seq<real>, t: real)
    requires Sorted(ks) && ks != [] && ks[0] <= t
    ensures PrevKeyframe(ks, t).Some?
    ensures PrevKeyframe(ks, t).value <= t
    ensures forall k :: k in ks && k <= t ==> k <= PrevKeyframe(ks, t).value
    ensures t in ks ==> PrevKeyframe(ks, t) == Some(t)
  {
    CountAtMostSplits(ks, t);
  }

  /** Below every keyframe, Python's `keyframes[-1]` returns the last one. */
  lemma PrevKeyframeWrapsAround(ks: seq<real>, t: real)
    requires ks != [] && t < ks[0]
    ensures PrevKeyframe(ks, t) == Some(ks[|ks| - 1])
  {
  }

  /**
   * NextKeyframe is `None` exactly when `t` is at or past the last keyframe;
   * otherwise it is the least keyframe strictly above `t`.
   */
  lemma NextKeyframeIsLeastAbove(ks: seq<real>, t: real)
    requires Sorted(ks)
    ensures NextKeyframe(ks, t).None? <==> ks == [] || ks[|ks| - 1] <= t
    ensures NextKeyframe(ks, t).Some? ==> t < NextKeyframe(ks, t).value
    ensures NextKeyframe(ks, t).Some? ==>
      forall k :: k in ks && t < k ==> NextKeyframe(ks, t).value <= k
  {
    CountAtMostSplits(ks, t);
  }

  /** When both lookups are defined they return neighbours: indices i-1 and i. */
  lemma LookupsAreAdjacent(ks: seq<real>, t: real)
    requires Sorted(ks) && ks != [] && ks[0] <= t < ks[|ks| - 1]
    ensures exists i :: 0 < i < |ks| && PrevKeyframe(ks, t) == Some(ks[i - 1])
                                      && NextKeyframe(ks, t) == Some(ks[i])
  {
    CountAtMostSplits(ks, t);
    var i := CountAtMost(ks, t);
    assert 0 < i < |ks|;
    assert PrevKeyframe(ks, t) == Some(ks[i - 1]) && NextKeyframe(ks, t) == Some(ks[i]);
  }

  /**
   * No keyframe lies strictly between PrevKeyframe(t) and `t` (also in the
   * wrap-around case, where PrevKeyframe is above `t`).
   */
  lemma NoKeyframeAfterPrev(ks: seq<real>, t: real)
    requires Sorted(ks) && ks != []
    ensures forall k :: k in ks ==> !(PrevKeyframe(ks, t).value < k < t)
  {
    CountAtMostSplits(ks, t);
    if t < ks[0] {
      forall k | k in ks ensures k <= ks[|ks| - 1] {
        var j :| 0 <= j < |ks| && ks[j] == k;
      }
    }
  }

  /** No keyframe lies strictly between `t` and NextKeyframe(t). */
  lemma NoKeyframeBeforeNext(ks: seq<real>, t: real)
    requires Sorted(ks) && NextKeyframe(ks, t).Some?
    ensures forall k :: k in ks ==> !(t < k < NextKeyframe(ks, t).value)
  {
    NextKeyframeIsLeastAbove(ks, t);
  }
}
