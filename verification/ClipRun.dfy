/** The loop of AM_clipMline (apps/doom/am_map.c): which line a run of cuts ends with, and what of
    the original line is lost. */
module ClipRunModel {
  import opened ClipModel
  import opened Common
  import opened LineModel

  // ---------------------------------------------------------------- runs

  datatype Segment = Segment(a: Point, b: Point)

  /** One pass: the endpoint that lies outside, a before b, moves to its cut point. */
  ghost predicate CutStep(s: Segment, s': Segment, w: int, h: int) {
    && !CodeOf(s.a, w, h).Shares(CodeOf(s.b, w, h))
    && if CodeOf(s.a, w, h).Any()
       then s'.b == s.b && Cuts(s'.a, s.a, s.a, s.b, w, h) && OnCrossing(s'.a, s.a, s.a, s.b, w, h)
       else CodeOf(s.b, w, h).Any() && s'.a == s.a
            && Cuts(s'.b, s.b, s.a, s.b, w, h) && OnCrossing(s'.b, s.b, s.a, s.b, w, h)
  }

  ghost predicate IsRun(run: seq<Segment>, w: int, h: int) {
    |run| > 0 && forall i | 0 <= i < |run| - 1 :: CutStep(run[i], run[i + 1], w, h)
  }

  ghost predicate Rejected(s: Segment, w: int, h: int) {
    CodeOf(s.a, w, h).Shares(CodeOf(s.b, w, h))
  }

  ghost predicate Inside(s: Segment, w: int, h: int) {
    !CodeOf(s.a, w, h).Any() && !CodeOf(s.b, w, h).Any()
  }

  ghost predicate EndsAt(run: seq<Segment>, s: Segment, last: Segment, w: int, h: int) {
    IsRun(run, w, h) && run[0] == s && run[|run| - 1] == last && (Rejected(last, w, h) || Inside(last, w, h))
  }

  /** The loop throws the segment away. */
  ghost predicate Rejects(s: Segment, w: int, h: int) {
    exists run, last :: EndsAt(run, s, last, w, h) && Rejected(last, w, h)
  }

  lemma TruncatedUnique(c1: int, c2: int, v: int, u: int, d: int)
    requires IsTruncated(c1, v, u, d) && IsTruncated(c2, v, u, d)
    ensures c1 == c2
  {
    AbsProduct(c1, d);
    AbsProduct(c2, d);
    if Abs(c1) < Abs(c2) {
      NextMultiple(Abs(c1), Abs(c2), Abs(d));
    } else if Abs(c2) < Abs(c1) {
      NextMultiple(Abs(c2), Abs(c1), Abs(d));
    }
  }

  lemma CutUnique(t1: Point, t2: Point, r: Point, a: Point, b: Point, w: int, h: int)
    requires CodeOf(r, w, h).Any() && Cuts(t1, r, a, b, w, h) && Cuts(t2, r, a, b, w, h)
    requires OnCrossing(t1, r, a, b, w, h) && OnCrossing(t2, r, a, b, w, h)
    ensures t1 == t2
  {
    hide IsTruncated;
    var code := CodeOf(r, w, h);
    if code.top {
      TruncatedUnique(t1.x - a.x, t2.x - a.x, b.x - a.x, 0 - a.y, b.y - a.y);
    } else if code.bottom {
      TruncatedUnique(t1.x - a.x, t2.x - a.x, b.x - a.x, h - a.y, b.y - a.y);
    } else if code.right {
      TruncatedUnique(t1.y - a.y, t2.y - a.y, b.y - a.y, w - 1 - a.x, b.x - a.x);
    } else {
      TruncatedUnique(t1.y - a.y, t2.y - a.y, b.y - a.y, 0 - a.x, b.x - a.x);
    }
  }

  lemma StepUnique(s: Segment, s1: Segment, s2: Segment, w: int, h: int)
    requires CutStep(s, s1, w, h) && CutStep(s, s2, w, h)
    ensures s1 == s2
  {
    hide Cuts, OnCrossing, CodeOf;
    if CodeOf(s.a, w, h).Any() {
      CutUnique(s1.a, s2.a, s.a, s.a, s.b, w, h);
    } else {
      CutUnique(s1.b, s2.b, s.b, s.a, s.b, w, h);
    }
  }

  lemma {:induction false} RunsAgree(r1: seq<Segment>, r2: seq<Segment>, w: int, h: int, i: nat)
    requires IsRun(r1, w, h) && IsRun(r2, w, h) && r1[0] == r2[0] && i < |r1| && i < |r2|
    ensures r1[i] == r2[i]
  {
    hide CutStep;
    if i > 0 {
      RunsAgree(r1, r2, w, h, i - 1);
      assert CutStep(r1[i - 1], r1[i - 1 + 1], w, h) && CutStep(r2[i - 1], r2[i - 1 + 1], w, h);
      StepUnique(r1[i - 1], r1[i], r2[i], w, h);
    }
  }

  /** The line determines the run, and with it the verdict and the endpoints. */
  lemma RunUnique(r1: seq<Segment>, r2: seq<Segment>, s: Segment, last1: Segment, last2: Segment, w: int, h: int)
    requires EndsAt(r1, s, last1, w, h) && EndsAt(r2, s, last2, w, h)
    ensures r1 == r2 && last1 == last2
  {
    hide CutStep, Rejected, Inside;
    var n := if |r1| < |r2| then |r1| else |r2|;
    RunsAgree(r1, r2, w, h, n - 1);
    if n < |r1| {
      FinalIsFinal(last2, r1[n - 1 + 1], w, h);
    }
    if n < |r2| {
      FinalIsFinal(last1, r2[n - 1 + 1], w, h);
    }
    forall i | 0 <= i < |r1| ensures r1[i] == r2[i] {
      RunsAgree(r1, r2, w, h, i);
    }
  }

  lemma FinalIsFinal(last: Segment, next: Segment, w: int, h: int)
    requires Rejected(last, w, h) || Inside(last, w, h)
    ensures !CutStep(last, next, w, h)
  {
    hide Cuts, OnCrossing, CodeOf;
  }

  // ---------------------------------------------------------------- when a rejection is right

  /** A run that is rejected has cut nothing but endpoint a, and more than once only if a had two
      outcode bits. */
  lemma RejectedShape(run: seq<Segment>, w: nat, h: nat)
    requires w >= 1 && h >= 1 && IsRun(run, w, h) && Rejected(run[|run| - 1], w, h)
    ensures |run| <= 3 && (|run| == 3 ==> CodeOf(run[0].a, w, h).Bits() == 2)
    ensures |run| >= 2 ==> CodeOf(run[0].a, w, h).Any() && Hidden(run[|run| - 2].a, run[|run| - 2].b, w, h)
    ensures |run| == 1 ==> Hidden(run[0].a, run[0].b, w, h)
  {
    hide Cuts, OnCrossing, CodeOf, Hidden, OutCode.Bits, OutCode.Any, OutCode.Shares;
    var n := |run|;
    if n == 1 {
      SharingIsSound(run[0].a, run[0].b, w, h);
    } else {
      assert CutStep(run[n - 2], run[n - 2 + 1], w, h);
      LastCut(run[n - 2], run[n - 1], w, h);
      BitBound(run[n - 2].a, w, h);
      if n >= 3 {
        assert CutStep(run[n - 3], run[n - 3 + 1], w, h);
        EarlierCut(run[n - 3], run[n - 2], w, h);
        BitBound(run[n - 3].a, w, h);
        if n >= 4 {
          assert CutStep(run[n - 4], run[n - 4 + 1], w, h);
          EarlierCut(run[n - 4], run[n - 3], w, h);
          BitBound(run[n - 4].a, w, h);
        }
      }
    }
  }

  lemma LastCut(s: Segment, s': Segment, w: nat, h: nat)
    requires w >= 1 && h >= 1 && CutStep(s, s', w, h) && Rejected(s', w, h)
    ensures CodeOf(s.a, w, h).Any() && Hidden(s.a, s.b, w, h)
  {
    hide Cuts, OnCrossing, CodeOf, Hidden;
    if CodeOf(s.a, w, h).Any() {
      RejectionIsSound(s'.a, s.a, s.a, s.b, w, h);
    } else {
      RejectionIsSound(s'.b, s.b, s.a, s.b, w, h);
    }
  }

  lemma EarlierCut(s: Segment, s': Segment, w: nat, h: nat)
    requires w >= 1 && h >= 1 && CutStep(s, s', w, h) && CodeOf(s'.a, w, h).Any() && !Rejected(s', w, h)
    ensures CodeOf(s.a, w, h).Any() && CodeOf(s'.a, w, h).Bits() < CodeOf(s.a, w, h).Bits()
  {
    hide Cuts, OnCrossing, CodeOf, OutCode.Bits;
    if CodeOf(s.a, w, h).Any() {
      CutDropsBit(s'.a, s.a, s.b, s.a, s.b, w, h);
    }
  }

  /** With at most one outcode bit on endpoint a nothing visible is ever thrown away. */
  lemma OneBitIsSound(s: Segment, w: nat, h: nat)
    requires w >= 1 && h >= 1 && CodeOf(s.a, w, h).Bits() <= 1 && Rejects(s, w, h)
    ensures Hidden(s.a, s.b, w, h)
  {
    hide CutStep, CodeOf, Hidden, OutCode.Bits;
    var run, last :| EndsAt(run, s, last, w, h) && Rejected(last, w, h);
    RejectedShape(run, w, h);
  }

  /** The line is rejected although the point halfway along it lies in the window. */
  ghost predicate WronglyRejected(s: Segment, w: int, h: int) {
    Rejects(s, w, h) && Visible(s.a, s.b, 1, 2, w, h)
  }

  lemma TwoCuts(s: Segment, s1: Segment, s2: Segment, w: int, h: int)
    requires CutStep(s, s1, w, h) && CutStep(s1, s2, w, h) && Rejected(s2, w, h)
    ensures Rejects(s, w, h)
  {
    hide CutStep, Rejected, Inside;
    var run := [s, s1, s2];
    assert run[0 + 1] == s1 && run[1 + 1] == s2;
    assert IsRun(run, w, h);
    assert EndsAt(run, s, s2, w, h);
  }

  /** With both bits set a visible line can be thrown away, in each of the four corners of any window. */
  lemma LostTopLeft(w: int, h: int)
    requires w >= 1 && h >= 2
    ensures WronglyRejected(Segment(Point(-1, -2), Point(1, 2 * h)), w, h)
  {
    var b := Point(1, 2 * h);
    TwoCuts(Segment(Point(-1, -2), b), Segment(Point(-1, 0), b), Segment(Point(0, h), b), w, h);
  }

  lemma LostTopRight(w: int, h: int)
    requires w >= 1 && h >= 2
    ensures WronglyRejected(Segment(Point(w, -2), Point(w - 2, 2 * h)), w, h)
  {
    var b := Point(w - 2, 2 * h);
    TwoCuts(Segment(Point(w, -2), b), Segment(Point(w, 0), b), Segment(Point(w - 1, h), b), w, h);
  }

  lemma LostBottomLeft(w: int, h: int)
    requires w >= 1 && h >= 1
    ensures WronglyRejected(Segment(Point(-1, h + 1), Point(1, -h - 1)), w, h)
  {
    var b := Point(1, -h - 1);
    TwoCuts(Segment(Point(-1, h + 1), b), Segment(Point(-1, h - 1), b), Segment(Point(0, -1), b), w, h);
  }

  lemma LostBottomRight(w: int, h: int)
    requires w >= 1 && h >= 1
    ensures WronglyRejected(Segment(Point(w, h + 1), Point(w - 2, -h - 1)), w, h)
  {
    var b := Point(w - 2, -h - 1);
    TwoCuts(Segment(Point(w, h + 1), b), Segment(Point(w, h - 1), b), Segment(Point(w - 1, -1), b), w, h);
  }

  /** A line on the automap's own window: it passes through (0, 161) and is not drawn. */
  lemma LostOnScreen()
    ensures WronglyRejected(Segment(Point(-6, -223), Point(6, 545)), 320, 168)
  {
    var b := Point(6, 545);
    TwoCuts(Segment(Point(-6, -223), b), Segment(Point(-3, 0), b), Segment(Point(0, 181), b), 320, 168);
  }

  /** Another, which runs down the whole of column 0: the part from 1/3 to 564/1192 is in the window. */
  lemma LostColumn()
    ensures var s := Segment(Point(-1, -397), Point(2, 795));
            && Rejects(s, 320, 168)
            && forall p, q | 0 < q :: Visible(s.a, s.b, p, q, 320, 168) <==> q <= 3 * p && 1192 * p <= 564 * q
  {
    var b := Point(2, 795);
    TwoCuts(Segment(Point(-1, -397), b), Segment(Point(-1, 0), b), Segment(Point(0, 265), b), 320, 168);
  }

  /** With a window of one row the first cut from above is exact enough: the second one is harmless. */
  lemma OneRowFromAbove(s: Segment, w: nat)
    requires w >= 1 && CodeOf(s.a, w, 1).top && Rejects(s, w, 1)
    ensures Hidden(s.a, s.b, w, 1)
  {
    hide CutStep, CodeOf, Hidden, OutCode.Bits;
    var run, last :| EndsAt(run, s, last, w, 1) && Rejected(last, w, 1);
    RejectedShape(run, w, 1);
    if |run| == 3 {
      assert CutStep(run[0], run[0 + 1], w, 1) && CutStep(run[1], run[1 + 1], w, 1);
      LastCut(run[1], run[2], w, 1);
      RowCut(s, run[1], w);
    }
  }

  lemma RowCut(s: Segment, s': Segment, w: nat)
    requires w >= 1 && CutStep(s, s', w, 1) && CodeOf(s.a, w, 1).top && CodeOf(s'.a, w, 1).Any()
    ensures Hidden(s.a, s.b, w, 1)
  {
    forall p, q | 0 < q && 0 <= p <= q ensures !Visible(s.a, s.b, p, q, w, 1) {
      if Visible(s.a, s.b, p, q, w, 1) {
        CrossingOutside(s.a.x, s.b.x - s.a.x, -s.a.y, s.b.y - s.a.y, s'.a.x - s.a.x, p, q, w);
      }
    }
  }

  /** The point of the line in row 0 lies on the same side of the window as its truncation. */
  lemma CrossingOutside(ax: int, v: int, u: int, d: int, c: int, p: int, q: int, w: int)
    requires 0 < d && 0 < q && p * d == q * u && Abs(v * u - c * d) < d && (ax + c < 0 || ax + c >= w)
    ensures !(0 <= q * ax + p * v <= q * (w - 1))
  {
    if 0 <= q * ax + p * v <= q * (w - 1) {
      Rescale(ax, v, u, d, p, q);
      Cancel(d, q, q * ax + p * v, d * ax + u * v, w - 1);
      TruncationOff(ax, v, u, d, c);
      NearTruncation(ax + c, d * ax + u * v, d, w);
    }
  }

  lemma TruncationOff(ax: int, v: int, u: int, d: int, c: int)
    ensures d * ax + u * v - (ax + c) * d == v * u - c * d
  {
  }

  lemma Cancel(d: int, q: int, y: int, x: int, max: int)
    requires 0 < d && 0 < q && d * y == q * x && 0 <= y <= q * max
    ensures 0 <= x <= d * max
  {
    OrderScaled(0, y, d);
    OrderScaled(y, q * max, d);
    Reassociate(d, q, max);
    PositiveFactor(0, x, q);
    PositiveFactor(x, d * max, q);
  }

  lemma NearTruncation(t: int, x: int, d: int, w: int)
    requires 0 < d && Abs(x - t * d) < d && 0 <= x <= d * (w - 1)
    ensures 0 <= t < w
  {
    if t < 0 {
      OrderScaled(t + 1, 0, d);
    } else if t >= w {
      OrderScaled(w, t, d);
    }
  }

  lemma Rescale(ax: int, v: int, u: int, d: int, p: int, q: int)
    requires p * d == q * u
    ensures d * (q * ax + p * v) == q * (d * ax + u * v)
  {
    assert d * (p * v) == (p * d) * v == (q * u) * v;
  }

  /** Rejection is sound for every line whose endpoint a has this outcode. */
  ghost predicate SoundIn(o: OutCode, w: int, h: int) {
    forall s: Segment | CodeOf(s.a, w, h) == o && Rejects(s, w, h) :: Hidden(s.a, s.b, w, h)
  }

  /** At most one bit is set, or the window has a single row and the line starts above it. */
  predicate Sound(o: OutCode, h: int) {
    ((o.left || o.right) ==> !o.top && !o.bottom) || (o.top && h == 1)
  }

  lemma SoundRejection(s: Segment, w: nat, h: nat)
    requires w >= 1 && h >= 1 && Rejects(s, w, h) && Sound(CodeOf(s.a, w, h), h)
    ensures Hidden(s.a, s.b, w, h)
  {
    hide Rejects, Hidden;
    if CodeOf(s.a, w, h).top && h == 1 {
      OneRowFromAbove(s, w);
    } else {
      OneBitIsSound(s, w, h);
    }
  }

  /** The exact condition for each window, on the outcode of endpoint a, which the loop has computed
      before its first cut: rejection never loses anything visible if and only if this holds. */
  lemma SoundIff(o: OutCode, w: int, h: int)
    requires !(o.left && o.right) && !(o.top && o.bottom) && w >= 1 && h >= 1
    ensures SoundIn(o, w, h) <==> Sound(o, h)
  {
    hide Rejects, Hidden, WronglyRejected;
    if Sound(o, h) {
      forall s: Segment | CodeOf(s.a, w, h) == o && Rejects(s, w, h) ensures Hidden(s.a, s.b, w, h) {
        SoundRejection(s, w, h);
      }
    } else if o.top && o.left {
      LostTopLeft(w, h);
      LosesFor(o, Segment(Point(-1, -2), Point(1, 2 * h)), w, h);
    } else if o.top {
      LostTopRight(w, h);
      LosesFor(o, Segment(Point(w, -2), Point(w - 2, 2 * h)), w, h);
    } else if o.left {
      LostBottomLeft(w, h);
      LosesFor(o, Segment(Point(-1, h + 1), Point(1, -h - 1)), w, h);
    } else {
      LostBottomRight(w, h);
      LosesFor(o, Segment(Point(w, h + 1), Point(w - 2, -h - 1)), w, h);
    }
  }

  lemma LosesFor(o: OutCode, s: Segment, w: int, h: int)
    requires CodeOf(s.a, w, h) == o && WronglyRejected(s, w, h)
    ensures !SoundIn(o, w, h)
  {
    hide Rejects, Visible;
    assert !Hidden(s.a, s.b, w, h);
  }

  // ---------------------------------------------------------------- what any rejection can lose

  /** A rational point of the segment in the window without its outermost pixels. */
  ghost predicate WellInside(a: Point, b: Point, p: int, q: int, w: int, h: int) {
    && q <= q * a.x + p * (b.x - a.x) <= q * (w - 2)
    && q <= q * a.y + p * (b.y - a.y) <= q * (h - 2)
  }

  /** The segment misses the window without its outermost pixels. */
  ghost predicate Misses(s: Segment, w: int, h: int) {
    forall p, q | 0 < q && 0 <= p <= q :: !WellInside(s.a, s.b, p, q, w, h)
  }

  lemma HiddenMisses(s: Segment, w: int, h: int)
    requires Hidden(s.a, s.b, w, h)
    ensures Misses(s, w, h)
  {
    forall p, q | 0 < q && 0 <= p <= q ensures !WellInside(s.a, s.b, p, q, w, h) {
      assert !Visible(s.a, s.b, p, q, w, h);
      assert q * (w - 2) == q * (w - 1) - q && q * (h - 2) == q * (h - 1) - q;
    }
  }

  /** t is within one pixel, in each coordinate, of the point of the line at fraction u / d. */
  ghost predicate NearCut(t: Point, a: Point, b: Point, u: int, d: int) {
    && 0 <= u <= d && 0 < d
    && Abs((t.x - a.x) * d - (b.x - a.x) * u) <= d
    && Abs((t.y - a.y) * d - (b.y - a.y) * u) <= d
  }

  lemma TruncatedNear(c: int, v: int, u: int, d: int)
    requires IsTruncated(c, v, u, d)
    ensures Abs(c * Abs(d) - v * if d < 0 then -u else u) <= Abs(d)
  {
    var x, y := c * d, v * u;
    NegatedProduct(c, d);
    NegatedProduct(v, u);
    assert Abs(y - x) < Abs(d);
  }

  lemma NegatedProduct(x: int, y: int)
    ensures x * -y == -(x * y)
  {
  }

  /** The other coordinate is exact, or, at the bottom, one pixel above the crossing. */
  lemma ExactNear(c: int, u: int, d: int)
    requires c == u || c == u - 1
    ensures var m, n := if d < 0 then -u else u, Abs(d);
            Abs(c * n - d * m) <= n
  {
    assert c == u - 1 ==> c * d == u * d - d;
    assert d < 0 ==> d * -u == -(d * u) && c * -d == -(c * d);
  }

  /** How far along the line, as v / e, it crosses the side that an endpoint with this outcode is cut at. */
  ghost function Crossing(code: OutCode, a: Point, b: Point, w: int, h: int): (int, int) {
    if code.top then (0 - a.y, b.y - a.y)
    else if code.bottom then (h - a.y, b.y - a.y)
    else if code.right then (w - 1 - a.x, b.x - a.x)
    else (0 - a.x, b.x - a.x)
  }

  lemma CrossingIsNear(t: Point, r: Point, o: Point, a: Point, b: Point, w: int, h: int)
    requires w >= 1 && h >= 1 && ((r == a && o == b) || (r == b && o == a))
    requires CodeOf(r, w, h).Any() && !CodeOf(r, w, h).Shares(CodeOf(o, w, h))
    requires Cuts(t, r, a, b, w, h) && OnCrossing(t, r, a, b, w, h)
    ensures var (v, e) := Crossing(CodeOf(r, w, h), a, b, w, h);
            NearCut(t, a, b, if e < 0 then -v else v, Abs(e))
  {
    hide IsTruncated;
    var code := CodeOf(r, w, h);
    var (v, e) := Crossing(code, a, b, w, h);
    if code.top || code.bottom {
      TruncatedNear(t.x - a.x, b.x - a.x, v, e);
      ExactNear(t.y - a.y, v, e);
    } else {
      TruncatedNear(t.y - a.y, b.y - a.y, v, e);
      ExactNear(t.x - a.x, v, e);
    }
  }

  /** Endpoint r is cut at the fraction u / d, both not negative. */
  lemma CutIsNear(t: Point, r: Point, o: Point, a: Point, b: Point, w: int, h: int) returns (u: int, d: int)
    requires w >= 1 && h >= 1 && ((r == a && o == b) || (r == b && o == a))
    requires CodeOf(r, w, h).Any() && !CodeOf(r, w, h).Shares(CodeOf(o, w, h))
    requires Cuts(t, r, a, b, w, h) && OnCrossing(t, r, a, b, w, h)
    ensures NearCut(t, a, b, u, d)
    ensures r == a ==> forall p, q | 0 < q && Visible(a, b, p, q, w, h) :: q * u <= p * d
  {
    hide Cuts, OnCrossing, CodeOf, NearCut, Crossing, Visible;
    CrossingIsNear(t, r, o, a, b, w, h);
    var (v, e) := Crossing(CodeOf(r, w, h), a, b, w, h);
    u, d := if e < 0 then -v else v, Abs(e);
    if r == a {
      forall p, q | 0 < q && Visible(a, b, p, q, w, h) ensures q * u <= p * d {
        BeyondCrossing(a, b, p, q, w, h);
      }
    }
  }

  /** Visible points lie beyond the crossing of a side on whose far side the line starts. */
  lemma BeyondCrossing(a: Point, b: Point, p: int, q: int, w: int, h: int)
    requires CodeOf(a, w, h).Any() && !CodeOf(a, w, h).Shares(CodeOf(b, w, h)) && w >= 1 && h >= 1
    requires 0 < q && Visible(a, b, p, q, w, h)
    ensures var (v, e) := Crossing(CodeOf(a, w, h), a, b, w, h);
            q * (if e < 0 then -v else v) <= p * Abs(e)
  {
    var (_, e) := Crossing(CodeOf(a, w, h), a, b, w, h);
    assert q * (h - 1) == q * h - q;
    assert q * (0 - a.y) == -(q * a.y) && q * (0 - a.x) == -(q * a.x);
    assert q * -(h - a.y) == q * a.y - q * h && q * -(w - 1 - a.x) == q * a.x - q * (w - 1);
    assert e < 0 ==> p * -e == -(p * e);
  }

  lemma ShiftIdentity(a: int, v: int, c: int, u: int, d: int, p: int, q: int)
    ensures q * (d - u) * (a + c) + (p * d - q * u) * (v - c) == (d - u) * (q * a + p * v) + (q - p) * (c * d - v * u)
  {
  }

  /** Moving the start of a segment to within one pixel of a point of it moves each point beyond by at
      most one pixel. One coordinate: what was at least one pixel inside is still inside. */
  lemma ShiftAxis(a: int, v: int, c: int, u: int, d: int, p: int, q: int, n: int)
    requires 0 <= u < d && 0 < q && p <= q && q * u <= p * d && Abs(c * d - v * u) <= d
    requires q <= q * a + p * v <= q * (n - 2)
    ensures 0 <= q * (d - u) * (a + c) + (p * d - q * u) * (v - c) <= q * (d - u) * (n - 1)
  {
    ShiftIdentity(a, v, c, u, d, p, q);
    MovedAtMost(c * d - v * u, u, d, p, q);
    ScaledRange(q * a + p * v, d - u, q, n);
  }

  lemma MovedAtMost(m: int, u: int, d: int, p: int, q: int)
    requires p <= q && q * u <= p * d && Abs(m) <= d
    ensures -(q * (d - u)) <= (q - p) * m <= q * (d - u)
  {
    OrderScaled(m, d, q - p);
    OrderScaled(-d, m, q - p);
    assert (q - p) * d == q * d - p * d && (q - p) * -d == p * d - q * d;
    assert q * (d - u) == q * d - q * u;
  }

  lemma ScaledRange(x: int, k: int, q: int, n: int)
    requires 0 <= k && q <= x <= q * (n - 2)
    ensures q * k <= k * x <= q * k * (n - 1) - q * k
  {
    OrderScaled(q, x, k);
    OrderScaled(x, q * (n - 2), k);
    Reassociate(k, q, n - 2);
    assert (q * k) * (n - 2) == q * k * (n - 1) - q * k;
  }

  /** A cut of endpoint a keeps every well inside point visible. */
  lemma CutKeepsMargin(s: Segment, s': Segment, w: nat, h: nat, p: int, q: int)
    requires w >= 1 && h >= 1 && CutStep(s, s', w, h) && CodeOf(s.a, w, h).Any()
    requires 0 < q && 0 <= p <= q && WellInside(s.a, s.b, p, q, w, h)
    ensures !Hidden(s'.a, s'.b, w, h)
  {
    hide Cuts, OnCrossing, CodeOf;
    assert q * (w - 2) == q * (w - 1) - q && q * (h - 2) == q * (h - 1) - q;
    var u, d := CutIsNear(s'.a, s.a, s.b, s.a, s.b, w, h);
    assert Visible(s.a, s.b, p, q, w, h);
    if u == d {
      EndVisible(s.a, s.b, p, q, w, h, d);
      assert Visible(s'.a, s.b, 1, 1, w, h);
    } else {
      ShiftAxis(s.a.x, s.b.x - s.a.x, s'.a.x - s.a.x, u, d, p, q, w);
      ShiftAxis(s.a.y, s.b.y - s.a.y, s'.a.y - s.a.y, u, d, p, q, h);
      ParameterInRange(u, d, p, q);
      assert Visible(s'.a, s'.b, p * d - q * u, q * (d - u), w, h);
    }
  }

  lemma ParameterInRange(u: int, d: int, p: int, q: int)
    requires 0 <= u < d && 0 < q && p <= q && q * u <= p * d
    ensures 0 < q * (d - u) && 0 <= p * d - q * u <= q * (d - u)
  {
    OrderScaled(p, q, d);
    assert q * (d - u) == q * d - q * u;
    assert q * (d - u) >= q * 1 by {
      OrderScaled(1, d - u, q);
    }
  }

  lemma EndVisible(a: Point, b: Point, p: int, q: int, w: int, h: int, d: int)
    requires 0 < q && 0 <= p <= q && 0 < d && q * d <= p * d && Visible(a, b, p, q, w, h)
    ensures 0 <= b.x <= w - 1 && 0 <= b.y <= h - 1
  {
    PositiveFactor(q, p, d);
    assert p == q;
    assert q * a.x + q * (b.x - a.x) == b.x * q && q * a.y + q * (b.y - a.y) == b.y * q;
    PositiveFactor(0, b.x, q);
    PositiveFactor(b.x, w - 1, q);
    PositiveFactor(0, b.y, q);
    PositiveFactor(b.y, h - 1, q);
  }

  /** Whatever the outcodes, a rejected line misses the window without its outermost pixels. */
  lemma RejectionMisses(s: Segment, w: nat, h: nat)
    requires w >= 1 && h >= 1 && Rejects(s, w, h)
    ensures Misses(s, w, h)
  {
    hide CodeOf, Hidden, OutCode.Bits, Misses, CutStep;
    var run, last :| EndsAt(run, s, last, w, h) && Rejected(last, w, h);
    RejectedShape(run, w, h);
    if |run| == 3 {
      assert CutStep(run[0], run[0 + 1], w, h);
      ShiftMisses(run[0], run[1], w, h);
    } else {
      HiddenMisses(s, w, h);
    }
  }

  lemma ShiftMisses(s: Segment, s': Segment, w: nat, h: nat)
    requires w >= 1 && h >= 1 && CutStep(s, s', w, h) && CodeOf(s.a, w, h).Any() && Hidden(s'.a, s'.b, w, h)
    ensures Misses(s, w, h)
  {
    hide CodeOf, CutStep, Hidden, WellInside;
    forall p, q | 0 < q && 0 <= p <= q ensures !WellInside(s.a, s.b, p, q, w, h) {
      if WellInside(s.a, s.b, p, q, w, h) {
        CutKeepsMargin(s, s', w, h, p, q);
      }
    }
  }

  // ---------------------------------------------------------------- how far the drawn line is off

  function R(n: int): real {
    n as real
  }

  /** A coordinate p is within e of the one at fraction l between a and b. */
  ghost predicate Within(p: int, a: int, b: int, l: real, e: nat) {
    -R(e) <= R(p) - (R(a) + l * R(b - a)) <= R(e)
  }

  /** p is within e pixels, in each coordinate, of the point of the line at fraction l. */
  ghost predicate NearAt(p: Point, s: Segment, l: real, e: nat) {
    0.0 <= l <= 1.0 && Within(p.x, s.a.x, s.b.x, l, e) && Within(p.y, s.a.y, s.b.y, l, e)
  }

  ghost predicate NearLine(p: Point, s: Segment, e: nat) {
    exists l: real :: NearAt(p, s, l, e)
  }

  /** |t - (x + m (y - x))| <= 1 for m = u / d, from its form in integers. */
  lemma RealCut(t: int, x: int, y: int, u: int, d: int)
    requires 0 <= u <= d && 0 < d && Abs((t - x) * d - (y - x) * u) <= d
    ensures var m := R(u) / R(d);
            0.0 <= m <= 1.0 && -1.0 <= R(t) - (R(x) + m * R(y - x)) <= 1.0
  {
    ProductAsReal(t - x, d);
    ProductAsReal(y - x, u);
    assert -R(d) <= R((t - x) * d) - R((y - x) * u) <= R(d);
    Fraction(R(u), R(d));
    WithinOne(R(t - x), R(y - x), R(u) / R(d), R(u), R(d));
  }

  lemma ProductAsReal(x: int, y: int)
    ensures R(x * y) == R(x) * R(y)
  {
  }

  lemma Fraction(u: real, d: real)
    requires 0.0 <= u <= d && 0.0 < d
    ensures var m := u / d; m * d == u && 0.0 <= m <= 1.0
  {
    RealBound(u / d, d);
  }

  lemma RealBound(x: real, d: real)
    requires 0.0 < d
    ensures Times(x, d) <= d ==> x <= 1.0
    ensures -d <= Times(x, d) ==> -1.0 <= x
    ensures 0.0 <= Times(x, d) ==> 0.0 <= x
  {
    hide Times;
    TimesShift(x, d);
    TimesPositive(x - 1.0, d);
    TimesPositive(-1.0 - x, d);
    TimesPositive(-x, d);
  }

  function Times(x: real, y: real): real {
    x * y
  }

  lemma TimesShift(x: real, d: real)
    ensures Times(x - 1.0, d) == Times(x, d) - d && Times(-1.0 - x, d) == -d - Times(x, d)
            && Times(-x, d) == -Times(x, d)
  {
  }

  lemma TimesPositive(x: real, d: real)
    requires 0.0 < d
    ensures 0.0 < x ==> 0.0 < Times(x, d)
  {
  }

  lemma WithinOne(x: real, y: real, m: real, u: real, d: real)
    requires Times(m, d) == u && 0.0 < d && -d <= Times(x, d) - Times(y, u) <= d
    ensures -1.0 <= x - Times(m, y) <= 1.0
  {
    hide Times;
    ScaleOff(x, y, m, d);
    RealBound(x - Times(m, y), d);
  }

  lemma ScaleOff(x: real, y: real, m: real, d: real)
    ensures Times(x - Times(m, y), d) == Times(x, d) - Times(y, Times(m, d))
  {
  }

  /** A blend of two coordinates that are within e of a line is within e of it. */
  lemma MixAxis(a: real, v: real, l1: real, l2: real, m: real, x1: real, x2: real, t: real, e: real)
    requires 0.0 <= m <= 1.0 && -1.0 <= t - (x1 + m * (x2 - x1)) <= 1.0
    requires -e <= x1 - (a + l1 * v) <= e && -e <= x2 - (a + l2 * v) <= e
    ensures -(e + 1.0) <= t - (a + Mix(m, l1, l2) * v) <= e + 1.0
  {
    hide Mix;
    var y1, y2 := x1 - (a + l1 * v), x2 - (a + l2 * v);
    MixLinear(m, l1, l2, a, v);
    MixDifference(m, x1, x2, a + l1 * v, a + l2 * v);
    MixBounds(m, y1, y2, -e, e);
    MixStep(m, x1, x2);
  }

  function Mix(m: real, x: real, y: real): real {
    (1.0 - m) * x + m * y
  }

  lemma MixStep(m: real, x: real, y: real)
    ensures Mix(m, x, y) == x + Times(m, y - x)
  {
  }

  lemma MixLinear(m: real, x: real, y: real, a: real, v: real)
    ensures a + Mix(m, x, y) * v == Mix(m, a + x * v, a + y * v)
  {
    MixStep(m, x, y);
    MixStep(m, a + x * v, a + y * v);
    assert (m * (y - x)) * v == m * (y * v - x * v);
  }

  lemma MixDifference(m: real, x: real, y: real, x': real, y': real)
    ensures Mix(m, x - x', y - y') == Mix(m, x, y) - Mix(m, x', y')
  {
  }

  lemma MixBounds(m: real, x: real, y: real, low: real, high: real)
    requires 0.0 <= m <= 1.0 && low <= x <= high && low <= y <= high
    ensures low <= Mix(m, x, y) <= high
  {
    hide Mix, Times;
    MixStep(m, x, y);
    Part(m, y - x);
  }

  lemma Part(m: real, x: real)
    requires 0.0 <= m <= 1.0
    ensures if 0.0 <= x then 0.0 <= Times(m, x) <= x else x <= Times(m, x) <= 0.0
  {
  }

  /** A cut adds at most one pixel to the distance from any line that both endpoints are near to. */
  lemma CutNear(t: Point, s: Segment, line: Segment, u: int, d: int, e: nat)
    requires NearCut(t, s.a, s.b, u, d) && NearLine(s.a, line, e) && NearLine(s.b, line, e)
    ensures NearLine(t, line, e + 1)
  {
    var l1: real :| NearAt(s.a, line, l1, e);
    var l2: real :| NearAt(s.b, line, l2, e);
    hide Mix, Within, R;
    RatioInRange(u, d);
    var m := R(u) / R(d);
    MixBounds(m, l1, l2, 0.0, 1.0);
    CutAxis(t.x, s.a.x, s.b.x, line.a.x, line.b.x, u, d, e, l1, l2);
    CutAxis(t.y, s.a.y, s.b.y, line.a.y, line.b.y, u, d, e, l1, l2);
    assert NearAt(t, line, Mix(m, l1, l2), e + 1);
  }

  lemma RatioInRange(u: int, d: int)
    requires 0 <= u <= d && 0 < d
    ensures 0.0 <= R(u) / R(d) <= 1.0 && R(d) != 0.0
  {
    Fraction(R(u), R(d));
  }

  lemma CutAxis(t: int, x: int, y: int, a: int, b: int, u: int, d: int, e: nat, l1: real, l2: real)
    requires 0 <= u <= d && 0 < d && Abs((t - x) * d - (y - x) * u) <= d
    requires Within(x, a, b, l1, e) && Within(y, a, b, l2, e)
    ensures Within(t, a, b, Mix(R(u) / R(d), l1, l2), e + 1)
  {
    hide Mix;
    RealCut(t, x, y, u, d);
    MixCut(t, x, y, a, b, R(u) / R(d), e, l1, l2);
  }

  lemma MixCut(t: int, x: int, y: int, a: int, b: int, m: real, e: nat, l1: real, l2: real)
    requires 0.0 <= m <= 1.0 && -1.0 <= R(t) - (R(x) + m * R(y - x)) <= 1.0
    requires Within(x, a, b, l1, e) && Within(y, a, b, l2, e)
    ensures Within(t, a, b, Mix(m, l1, l2), e + 1)
  {
    hide Mix;
    assert R(y - x) == R(y) - R(x);
    MixAxis(R(a), R(b - a), l1, l2, m, R(x), R(y), R(t), R(e));
  }

  lemma Farther(p: Point, line: Segment, e: nat)
    requires NearLine(p, line, e)
    ensures NearLine(p, line, e + 1)
  {
    var l: real :| NearAt(p, line, l, e);
    assert NearAt(p, line, l, e + 1);
  }

  lemma EndsAreNear(s: Segment)
    ensures NearLine(s.a, s, 0) && NearLine(s.b, s, 0)
  {
    assert NearAt(s.a, s, 0.0, 0);
    assert NearAt(s.b, s, 1.0, 0);
  }

  /** After i cuts both endpoints are within i pixels of the original line. */
  lemma {:induction false} RunStaysNear(run: seq<Segment>, w: nat, h: nat, i: nat)
    requires w >= 1 && h >= 1 && IsRun(run, w, h) && i < |run|
    ensures NearLine(run[i].a, run[0], i) && NearLine(run[i].b, run[0], i)
  {
    hide Cuts, OnCrossing, CodeOf, NearLine, NearCut;
    if i == 0 {
      EndsAreNear(run[0]);
    } else {
      RunStaysNear(run, w, h, i - 1);
      var s, s' := run[i - 1], run[i];
      assert CutStep(run[i - 1], run[i - 1 + 1], w, h);
      if CodeOf(s.a, w, h).Any() {
        var u, d := CutIsNear(s'.a, s.a, s.b, s.a, s.b, w, h);
        CutNear(s'.a, s, run[0], u, d, i - 1);
        Farther(s.b, run[0], i - 1);
      } else {
        var u, d := CutIsNear(s'.b, s.b, s.a, s.a, s.b, w, h);
        CutNear(s'.b, s, run[0], u, d, i - 1);
        Farther(s.a, run[0], i - 1);
      }
    }
  }

  // ---------------------------------------------------------------- AM_clipMline

  class FLine {
    var a: Point
    var b: Point

    constructor (a: Point, b: Point)
      ensures this.a == a && this.b == b
    {
      this.a, this.b := a, b;
    }
  }

  /** One pass of the loop body up to the assignment of tmp; no branch divides by zero. */
  method CutPoint(fl: FLine, outside: OutCode, w: int, h: int, ghost r: Point) returns (t: Point)
    requires w >= 1 && h >= 1 && !CodeOf(fl.a, w, h).Shares(CodeOf(fl.b, w, h))
    requires (r == fl.a || r == fl.b) && outside == CodeOf(r, w, h) && outside.Any()
    ensures Cuts(t, r, fl.a, fl.b, w, h) && OnCrossing(t, r, fl.a, fl.b, w, h)
  {
    hide CDiv, IsTruncated;
    if outside.top {
      var dy := fl.a.y - fl.b.y;
      var dx := fl.b.x - fl.a.x;
      CDivFraction(dx, fl.a.y, dy);
      TruncatedQuotient(dx, fl.a.y, dy);
      TruncatedFlip(CDiv(dx * fl.a.y, dy), dx, 0 - fl.a.y, fl.b.y - fl.a.y);
      t := Point(fl.a.x + CDiv(dx * fl.a.y, dy), 0);
    } else if outside.bottom {
      var dy := fl.a.y - fl.b.y;
      var dx := fl.b.x - fl.a.x;
      CDivFraction(dx, fl.a.y - h, dy);
      TruncatedQuotient(dx, fl.a.y - h, dy);
      TruncatedFlip(CDiv(dx * (fl.a.y - h), dy), dx, h - fl.a.y, fl.b.y - fl.a.y);
      t := Point(fl.a.x + CDiv(dx * (fl.a.y - h), dy), h - 1);
    } else if outside.right {
      var dy := fl.b.y - fl.a.y;
      var dx := fl.b.x - fl.a.x;
      CDivFraction(dy, w - 1 - fl.a.x, dx);
      TruncatedQuotient(dy, w - 1 - fl.a.x, dx);
      t := Point(w - 1, fl.a.y + CDiv(dy * (w - 1 - fl.a.x), dx));
    } else if outside.left {
      var dy := fl.b.y - fl.a.y;
      var dx := fl.b.x - fl.a.x;
      CDivFraction(dy, -fl.a.x, dx);
      TruncatedQuotient(dy, -fl.a.x, dx);
      t := Point(0, fl.a.y + CDiv(dy * -fl.a.x, dx));
    } else {
      t := Point(0, 0);
    }
  }

  ghost function Of(fl: FLine): Segment
    reads fl
  {
    Segment(fl.a, fl.b)
  }

  /** `run` are the segments the loop goes through, from the input to what it leaves behind; there are
      at most four cuts. */
  method ClipLine(fl: FLine, w: nat, h: nat) returns (visible: bool, ghost run: seq<Segment>)
    requires w >= 1 && h >= 1
    modifies fl
    ensures EndsAt(run, old(Of(fl)), Of(fl), w, h) && |run| <= 5
    ensures visible == Inside(Of(fl), w, h) == !Rejects(old(Of(fl)), w, h)
    ensures visible ==> InWindow(fl.a, w, h) && InWindow(fl.b, w, h)
    ensures NearLine(fl.a, old(Of(fl)), |run| - 1) && NearLine(fl.b, old(Of(fl)), |run| - 1)
    ensures !visible && Sound(CodeOf(old(fl.a), w, h), h) ==> Hidden(old(fl.a), old(fl.b), w, h)
    ensures !visible ==> Misses(old(Of(fl)), w, h)
    ensures InBox(fl.a, old(fl.a), old(fl.b)) && InBox(fl.b, old(fl.a), old(fl.b))
    ensures InWindow(old(fl.a), w, h) ==> visible && fl.a == old(fl.a)
    ensures InWindow(old(fl.b), w, h) ==> visible && fl.b == old(fl.b)
  {
    hide Cuts, OnCrossing, CodeOf, OutCode.Bits, Hidden, Misses, Rejects, NearLine;
    visible, run := ClipLoop(fl, w, h);
    BitBound(fl.a, w, h);
    BitBound(fl.b, w, h);
    RunStaysNear(run, w, h, |run| - 1);
    Verdict(run, old(Of(fl)), Of(fl), w, h);
    if !visible {
      RejectionMisses(old(Of(fl)), w, h);
      if Sound(CodeOf(old(fl.a), w, h), h) {
        SoundRejection(old(Of(fl)), w, h);
      }
    }
  }

  /** The verdict of a run is that of its line. */
  lemma Verdict(run: seq<Segment>, s: Segment, last: Segment, w: nat, h: nat)
    requires EndsAt(run, s, last, w, h)
    ensures Inside(last, w, h) == !Rejected(last, w, h) == !Rejects(s, w, h)
  {
    hide CodeOf, CutStep, IsRun;
    if Rejects(s, w, h) {
      var r2, l2 :| EndsAt(r2, s, l2, w, h) && Rejected(l2, w, h);
      RunUnique(run, r2, s, last, l2, w, h);
    }
    NotBoth(last, w, h);
  }

  lemma NotBoth(s: Segment, w: int, h: int)
    ensures Inside(s, w, h) ==> !Rejected(s, w, h)
  {
    hide CodeOf;
  }

  /** The tests and the loop. */
  method ClipLoop(fl: FLine, w: nat, h: nat) returns (visible: bool, ghost run: seq<Segment>)
    requires w >= 1 && h >= 1
    modifies fl
    ensures EndsAt(run, old(Of(fl)), Of(fl), w, h) && |run| <= 5
    ensures visible == Inside(Of(fl), w, h) == !Rejected(Of(fl), w, h)
    ensures InBox(fl.a, old(fl.a), old(fl.b)) && InBox(fl.b, old(fl.a), old(fl.b))
    ensures InWindow(old(fl.a), w, h) ==> visible && fl.a == old(fl.a)
    ensures InWindow(old(fl.b), w, h) ==> visible && fl.b == old(fl.b)
  {
    hide Cuts, OnCrossing, CodeOf, OutCode.Bits;
    run := [Of(fl)];
    var outcode1 := CodeOf(fl.a, w, h);
    var outcode2 := CodeOf(fl.b, w, h);
    BitBound(fl.a, w, h);
    BitBound(fl.b, w, h);
    if outcode1.Shares(outcode2) {
      return false, run;
    }
    while outcode1.Any() || outcode2.Any()
      invariant outcode1 == CodeOf(fl.a, w, h) && outcode2 == CodeOf(fl.b, w, h) && !outcode1.Shares(outcode2)
      invariant IsRun(run, w, h) && run[0] == old(Of(fl)) && run[|run| - 1] == Of(fl)
      invariant |run| - 1 + outcode1.Bits() + outcode2.Bits() <= 4
      invariant InBox(fl.a, old(fl.a), old(fl.b)) && InBox(fl.b, old(fl.a), old(fl.b))
      invariant InWindow(old(fl.a), w, h) ==> fl.a == old(fl.a)
      invariant InWindow(old(fl.b), w, h) ==> fl.b == old(fl.b)
      decreases outcode1.Bits() + outcode2.Bits()
    {
      BitBound(fl.a, w, h);
      BitBound(fl.b, w, h);
      var outside := if outcode1.Any() then outcode1 else outcode2;
      ghost var a, b := fl.a, fl.b;
      ghost var r, o := if outcode1.Any() then a else b, if outcode1.Any() then b else a;
      var tmp := CutPoint(fl, outside, w, h, r);
      CutStaysInBox(tmp, r, a, b, old(fl.a), old(fl.b), w, h);
      if outside == outcode1 {
        fl.a := tmp;
        outcode1 := CodeOf(fl.a, w, h);
      } else {
        fl.b := tmp;
        outcode2 := CodeOf(fl.b, w, h);
      }
      assert CutStep(Segment(a, b), Of(fl), w, h);
      RunGrows(run, Of(fl), w, h);
      run := run + [Of(fl)];
      if outcode1.Shares(outcode2) {
        BitBound(fl.a, w, h);
        BitBound(fl.b, w, h);
        return false, run;
      }
      CutDropsBit(tmp, r, o, a, b, w, h);
    }
    visible := true;
  }

  lemma RunGrows(run: seq<Segment>, s: Segment, w: int, h: int)
    requires IsRun(run, w, h) && CutStep(run[|run| - 1], s, w, h)
    ensures IsRun(run + [s], w, h)
  {
    hide CutStep;
    var all := run + [s];
    forall i | 0 <= i < |all| - 1 ensures CutStep(all[i], all[i + 1], w, h) {
      if i < |run| - 1 {
        assert CutStep(run[i], run[i + 1], w, h);
      }
    }
  }
}
