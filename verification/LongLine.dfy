/** Cutting a very long line into overlapping segments (internal/scanner/evaluate.go). */
module LongLine {

  /** s is a multiple of step. */
  predicate OnGrid(step: nat, s: nat)
    requires step > 0
  {
    s == 0 || (s >= step && OnGrid(step, s - step))
  }

  lemma {:induction false} GridGap(step: nat, s: nat, t: nat)
    requires step > 0 && OnGrid(step, s) && OnGrid(step, t) && s < t
    ensures s + step <= t
  {
    if s > 0 {
      GridGap(step, s - step, t - step);
    }
  }

  /** The grid point at or below a. */
  function Base(step: nat, a: nat): (s: nat)
    requires step > 0
    ensures OnGrid(step, s) && s <= a < s + step
  {
    if a < step then 0 else Base(step, a - step) + step
  }

  /** Overlap is added only when it fits entirely inside the line. */
  function End(n: nat, step: nat, overlap: nat, start: nat): nat {
    var end := if start + step > n then n else start + step;
    if end < n && end + overlap <= n then end + overlap else end
  }

  function NonNegative(x: int): nat {
    if x < 0 then 0 else x
  }

  datatype Segment = Segment(start: nat, end: nat)

  ghost predicate IsSegment(n: nat, step: nat, overlap: nat, g: Segment)
    requires step > 0
  {
    if n <= step then g == Segment(0, n)
    else OnGrid(step, g.start) && g.start < n && g.end == End(n, step, overlap, g.start)
  }

  /** `done` and then the slices from grid point start on, left to right. */
  function SegmentsFrom(n: nat, step: nat, overlap: nat, start: nat, done: seq<Segment>): seq<Segment>
    requires step > 0
    decreases n - start
  {
    if start >= n then done
    else SegmentsFrom(n, step, overlap, start + step, done + [Segment(start, End(n, step, overlap, start))])
  }

  function SegmentList(n: nat, step: nat, overlap: nat): seq<Segment>
    requires step > 0
  {
    if n <= step then [Segment(0, n)] else SegmentsFrom(n, step, overlap, 0, [])
  }

  lemma {:induction false} SegmentsFromMembers(n: nat, step: nat, overlap: nat, start: nat, done: seq<Segment>, g: Segment)
    requires step > 0 && n > step && OnGrid(step, start)
    ensures g in SegmentsFrom(n, step, overlap, start, done) <==>
      g in done || (IsSegment(n, step, overlap, g) && start <= g.start)
    decreases n - start
  {
    if start < n {
      SegmentsFromMembers(n, step, overlap, start + step, done + [Segment(start, End(n, step, overlap, start))], g);
      if IsSegment(n, step, overlap, g) && start < g.start {
        GridGap(step, start, g.start);
      }
    }
  }

  /** The list holds exactly the segments, each within the line. */
  lemma SegmentListMembers(n: nat, step: nat, overlap: nat, g: Segment)
    requires step > 0
    ensures g in SegmentList(n, step, overlap) <==> IsSegment(n, step, overlap, g)
    ensures g in SegmentList(n, step, overlap) ==> g.start <= g.end <= n
  {
    if n > step {
      SegmentsFromMembers(n, step, overlap, 0, [], g);
    }
  }

  /** `evaluateLongLine`: the slices it evaluates, in order. */
  method Segments(n: nat, step: nat, overlapArg: int) returns (segs: seq<Segment>)
    requires step > 0
    ensures segs == SegmentList(n, step, NonNegative(overlapArg))
  {
    if n <= step {
      return [Segment(0, n)];
    }
    var overlap := NonNegative(overlapArg);
    segs := [];
    var start := 0;
    while start < n
      invariant SegmentsFrom(n, step, overlap, start, segs) == SegmentsFrom(n, step, overlap, 0, [])
      decreases n - start
    {
      var end := start + step;
      if end > n {
        end := n;
      }
      if end < n && end + overlap <= n {
        end := end + overlap;
      }
      segs := segs + [Segment(start, end)];
      start := start + step;
    }
  }

  // ---------- which substrings a segment shows whole ----------

  ghost predicate InSegment(n: nat, step: nat, overlap: nat, s: nat, a: nat, b: nat)
    requires step > 0
  {
    OnGrid(step, s) && s < n && s <= a && b <= End(n, step, overlap, s)
  }

  ghost predicate Shown(n: nat, step: nat, overlap: nat, a: nat, b: nat)
    requires step > 0
  {
    exists s: nat :: InSegment(n, step, overlap, s, a, b)
  }

  /** A boundary inside a..b after which fewer than overlap bytes remain. */
  ghost predicate CutAt(n: nat, step: nat, overlap: nat, a: nat, b: nat, cut: nat)
    requires step > 0
  {
    OnGrid(step, cut) && a < cut < b && cut + overlap > n
  }

  ghost predicate Cut(n: nat, step: nat, overlap: nat, a: nat, b: nat)
    requires step > 0
  {
    exists cut: nat :: CutAt(n, step, overlap, a, b, cut)
  }

  /** The furthest point an overlapped segment reaches, or 0 when no segment has room for overlap. */
  function Furthest(n: nat, step: nat, overlap: nat): nat
    requires step > 0
  {
    if n < overlap + step then 0 else Base(step, n - overlap) + overlap
  }

  lemma BaseMonotone(step: nat, g: nat, a: nat)
    requires step > 0 && OnGrid(step, g) && g <= a
    ensures g <= Base(step, a)
  {
    if Base(step, a) < g {
      GridGap(step, Base(step, a), g);
    }
  }

  lemma UncutIsShown(n: nat, step: nat, overlap: nat, a: nat, b: nat)
    requires 0 < step && a < b <= n && b - a <= overlap + 1 && !Cut(n, step, overlap, a, b)
    ensures Shown(n, step, overlap, a, b)
  {
    var s := Base(step, a);
    if s + step < b {
      assert OnGrid(step, s + step);
      assert !CutAt(n, step, overlap, a, b, s + step);
    }
    assert InSegment(n, step, overlap, s, a, b);
  }

  lemma NextIsBelow(step: nat, a: nat, cut: nat)
    requires step > 0 && OnGrid(step, cut) && a < cut
    ensures Base(step, a) + step <= cut && OnGrid(step, Base(step, a) + step)
  {
    if cut < Base(step, a) + step {
      GridGap(step, Base(step, a), cut);
    }
  }

  lemma ShownCutReaches(n: nat, step: nat, overlap: nat, a: nat, b: nat, cut: nat)
    requires 0 < step && a < b <= n && CutAt(n, step, overlap, a, b, cut) && Shown(n, step, overlap, a, b)
    ensures b <= Furthest(n, step, overlap)
  {
    var s: nat :| InSegment(n, step, overlap, s, a, b);
    NextIsBelow(step, a, cut);
    BaseMonotone(step, s, a);
    assert s + step <= cut < b;
    assert s + step + overlap <= n;
    assert OnGrid(step, s + step);
    BaseMonotone(step, s + step, n - overlap);
  }

  lemma ReachedCutIsShown(n: nat, step: nat, overlap: nat, a: nat, b: nat, cut: nat)
    requires 0 < step && a < b <= n && b - a <= overlap + 1 && CutAt(n, step, overlap, a, b, cut)
    requires b <= Furthest(n, step, overlap)
    ensures Shown(n, step, overlap, a, b)
  {
    var base, g := Base(step, a), Base(step, n - overlap);
    NextIsBelow(step, a, cut);
    if base + step + overlap <= n {
      assert InSegment(n, step, overlap, base, a, b);
    } else {
      BaseBelow(step, g, a);
      assert InSegment(n, step, overlap, g - step, a, b);
    }
  }

  lemma CutShownIff(n: nat, step: nat, overlap: nat, a: nat, b: nat)
    requires 0 < step && a < b <= n && b - a <= overlap + 1 && Cut(n, step, overlap, a, b)
    ensures Shown(n, step, overlap, a, b) <==> b <= Furthest(n, step, overlap)
  {
    var cut: nat :| CutAt(n, step, overlap, a, b, cut);
    if Shown(n, step, overlap, a, b) {
      ShownCutReaches(n, step, overlap, a, b, cut);
    } else if b <= Furthest(n, step, overlap) {
      ReachedCutIsShown(n, step, overlap, a, b, cut);
    }
  }

  lemma BaseBelow(step: nat, g: nat, a: nat)
    requires step > 0 && OnGrid(step, g) && step <= g < Base(step, a) + step
    ensures OnGrid(step, g - step) && g - step <= a && g <= Base(step, a)
  {
    if g > Base(step, a) {
      GridGap(step, Base(step, a), g);
    }
  }

  /** A substring of at most overlap+1 bytes is evaluated whole, except exactly when it
      straddles a boundary with fewer than overlap bytes after it and no earlier
      overlapped segment reaches its end. */
  lemma ShownIff(n: nat, step: nat, overlap: nat, a: nat, b: nat)
    requires 0 < step && a < b <= n && b - a <= overlap + 1
    ensures Shown(n, step, overlap, a, b) <==> !Cut(n, step, overlap, a, b) || b <= Furthest(n, step, overlap)
  {
    if Cut(n, step, overlap, a, b) {
      CutShownIff(n, step, overlap, a, b);
    } else {
      UncutIsShown(n, step, overlap, a, b);
    }
  }

  /** With the overlap no larger than a segment the boundary test alone decides. */
  lemma ShownIffUncut(n: nat, step: nat, overlap: nat, a: nat, b: nat)
    requires 0 < step && overlap <= step && a < b <= n && b - a <= overlap + 1
    ensures Shown(n, step, overlap, a, b) <==> !Cut(n, step, overlap, a, b)
  {
    ShownIff(n, step, overlap, a, b);
    if Cut(n, step, overlap, a, b) && n >= overlap + step {
      var cut: nat :| CutAt(n, step, overlap, a, b, cut);
      GridGap(step, Base(step, n - overlap), cut);
    }
  }

  /** Every byte is in some segment, overlap or not. */
  lemma EveryByteShown(n: nat, step: nat, overlap: nat, a: nat)
    requires 0 < step && a < n
    ensures Shown(n, step, overlap, a, a + 1)
  {
    UncutIsShown(n, step, overlap, a, a + 1);
  }

  /** A line of 25 bytes cut by 10 with overlap 6 loses the pair around byte 20. */
  lemma PairLost()
    ensures !Shown(25, 10, 6, 19, 21)
  {
    assert OnGrid(10, 20) by { assert OnGrid(10, 10); }
    assert CutAt(25, 10, 6, 19, 21, 20);
    ShownIffUncut(25, 10, 6, 19, 21);
  }
}
