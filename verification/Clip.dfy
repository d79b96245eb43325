/** One pass of the frame-buffer half of AM_clipMline (apps/doom/am_map.c): Cohen-Sutherland
    clipping in integers, with C's truncating division. ClipRunModel puts the passes together. */
module ClipModel {
  import opened Common
  import opened LineModel

  // ---------------------------------------------------------------- C division

  function Quotient(n: nat, d: nat): (q: nat)
    requires 0 < d
    ensures q * d <= n < q * d + d
  {
    n / d
  }

  /** C's `/`: the quotient truncated toward zero. */
  function CDiv(n: int, d: int): int
    requires d != 0
  {
    var q: int := Quotient(Abs(n), Abs(d));
    if (n < 0) == (d < 0) then q else -q
  }

  lemma AbsProduct(x: int, y: int)
    ensures Abs(x * y) == Abs(x) * Abs(y)
  {
    if x >= 0 && y >= 0 {
    } else if x >= 0 {
      assert x * y == -(x * -y) && x * -y >= 0;
    } else if y >= 0 {
      assert x * y == -(-x * y) && -x * y >= 0;
    } else {
      assert x * y == -x * -y && -x * -y >= 0;
    }
  }

  lemma Magnitude(n: int, d: int) returns (q: int)
    requires d != 0
    ensures CDiv(n, d) == if (n < 0) == (d < 0) then q else -q
    ensures 0 <= q && q * Abs(d) <= Abs(n) < q * Abs(d) + Abs(d)
  {
    hide Quotient;
    q := Quotient(Abs(n), Abs(d));
  }

  /** The quotient q of C division: q * d is n cut back toward zero by less than one |d|. */
  lemma CDivError(n: int, d: int)
    requires d != 0
    ensures Abs(n - CDiv(n, d) * d) < Abs(d) && Abs(CDiv(n, d) * d) <= Abs(n)
  {
    hide CDiv;
    var q := Magnitude(n, d);
    SignedProduct(q, d);
  }

  lemma SignedProduct(q: int, d: int)
    ensures q * d == if d < 0 then -(q * Abs(d)) else q * Abs(d)
    ensures -q * d == if d < 0 then q * Abs(d) else -(q * Abs(d))
  {
  }

  /** Scaling by a fraction p / d between 0 and 1 and truncating stays between 0 and v. */
  lemma CDivFraction(v: int, p: int, d: int)
    requires d != 0 && Between(p, 0, d)
    ensures Between(CDiv(v * p, d), 0, v)
  {
    hide CDiv;
    var n := v * p;
    var q := Magnitude(n, d);
    AbsProduct(v, p);
    Scale(Abs(p), Abs(d), Abs(v));
    if q > Abs(v) {
      NextMultiple(Abs(v), q, Abs(d));
    }
    if v == 0 || p == 0 {
      assert n == 0;
    } else {
      SignOfProduct(v, p);
    }
  }

  lemma SignOfProduct(x: int, y: int)
    requires x != 0 && y != 0
    ensures (x * y < 0) == ((x < 0) != (y < 0))
  {
    AbsProduct(x, y);
  }

  // ------------------------------------------------------------------ outcodes

  datatype OutCode = OutCode(left: bool, right: bool, bottom: bool, top: bool) {
    predicate Any() { left || right || bottom || top }

    predicate Shares(o: OutCode) {
      (left && o.left) || (right && o.right) || (bottom && o.bottom) || (top && o.top)
    }

    ghost function Bits(): nat {
      (if left then 1 else 0) + (if right then 1 else 0) + (if bottom then 1 else 0) + (if top then 1 else 0)
    }
  }

  function CodeOf(p: Point, w: int, h: int): OutCode {
    OutCode(p.x < 0, p.x >= 0 && p.x >= w, p.y >= 0 && p.y >= h, p.y < 0)
  }

  ghost predicate InBox(p: Point, a: Point, b: Point) {
    Between(p.x, a.x, b.x) && Between(p.y, a.y, b.y)
  }

  /** Where the line from a to b is cut when endpoint r of it is outside: the branch for r's first set bit. */
  ghost predicate Cuts(t: Point, r: Point, a: Point, b: Point, w: int, h: int) {
    var code := CodeOf(r, w, h);
    && InBox(t, a, b)
    && (code.top ==> t.y == 0)
    && (code.bottom ==> t.y == h - 1)
    && (code.right && !code.top && !code.bottom ==> t.x == w - 1)
    && (code.left && !code.top && !code.bottom ==> t.x == 0)
  }

  /** c is v * u / d with the fraction dropped. */
  ghost predicate IsTruncated(c: int, v: int, u: int, d: int) {
    Abs(c * d) <= Abs(v * u) && Abs(v * u - c * d) < Abs(d) && Between(c, 0, v)
  }

  /** The free coordinate of the cut point is the crossing of the line with that side, truncated toward a. */
  ghost predicate OnCrossing(t: Point, r: Point, a: Point, b: Point, w: int, h: int) {
    var code := CodeOf(r, w, h);
    if code.top then IsTruncated(t.x - a.x, b.x - a.x, 0 - a.y, b.y - a.y)
    else if code.bottom then IsTruncated(t.x - a.x, b.x - a.x, h - a.y, b.y - a.y)
    else if code.right then IsTruncated(t.y - a.y, b.y - a.y, w - 1 - a.x, b.x - a.x)
    else IsTruncated(t.y - a.y, b.y - a.y, 0 - a.x, b.x - a.x)
  }

  lemma TruncatedQuotient(v: int, u: int, d: int)
    requires d != 0 && Between(u, 0, d)
    ensures IsTruncated(CDiv(v * u, d), v, u, d)
  {
    hide CDiv;
    CDivError(v * u, d);
    CDivFraction(v, u, d);
  }

  lemma TruncatedFlip(c: int, v: int, u: int, d: int)
    requires IsTruncated(c, v, -u, -d)
    ensures IsTruncated(c, v, u, d)
  {
    assert c * -d == -(c * d) && v * -u == -(v * u);
  }

  /** Unless the cut point is seen to lie outside together with the other endpoint, a bit is gone for good. */
  lemma CutDropsBit(t: Point, r: Point, o: Point, a: Point, b: Point, w: int, h: int)
    requires (r == a && o == b) || (r == b && o == a)
    requires w >= 1 && h >= 1 && CodeOf(r, w, h).Any() && !CodeOf(r, w, h).Shares(CodeOf(o, w, h))
    requires Cuts(t, r, a, b, w, h) && !CodeOf(t, w, h).Shares(CodeOf(o, w, h))
    ensures CodeOf(t, w, h).Bits() < CodeOf(r, w, h).Bits()
  {
  }

  lemma CutStaysInBox(t: Point, r: Point, a: Point, b: Point, a0: Point, b0: Point, w: int, h: int)
    requires Cuts(t, r, a, b, w, h) && InBox(a, a0, b0) && InBox(b, a0, b0)
    ensures InBox(t, a0, b0)
  {
  }

  lemma BitBound(p: Point, w: nat, h: nat)
    ensures CodeOf(p, w, h).Bits() <= 2 && (CodeOf(p, w, h).Any() <==> !InWindow(p, w, h))
    ensures CodeOf(p, w, h).Any() <==> CodeOf(p, w, h).Bits() > 0
  {
  }

  // --------------------------------------------- what is hidden before the last cut

  /** A rational point of the segment, at fraction p / q from a to b, scaled by q. */
  ghost predicate Visible(a: Point, b: Point, p: int, q: int, w: int, h: int) {
    && 0 <= q * a.x + p * (b.x - a.x) <= q * (w - 1)
    && 0 <= q * a.y + p * (b.y - a.y) <= q * (h - 1)
  }

  lemma OrderScaled(x: int, y: int, k: int)
    requires x <= y
    ensures k >= 0 ==> k * x <= k * y
    ensures k <= 0 ==> k * x >= k * y
  {
    assert k >= 0 ==> k * (y - x) >= 0;
    assert k <= 0 ==> k * (x - y) >= 0;
    assert k * (y - x) == k * y - k * x && k * (x - y) == k * x - k * y;
  }

  lemma PositiveFactor(x: int, y: int, d: int)
    requires d > 0 && x * d <= y * d
    ensures x <= y
  {
    if x > y {
      NextMultiple(y, x, d);
    }
  }

  lemma PastFalling(v: int, c: int, u: int, d: int, p: int, q: int)
    requires d > 0 && v <= 0 && c * d >= v * u && p * d >= q * u && q > 0
    ensures p * v <= q * c
  {
    OrderScaled(q * u, p * d, v);
    OrderScaled(v * u, c * d, q);
    assert (p * v) * d == v * (p * d) by { Reassociate(p, v, d); }
    assert v * (q * u) == q * (v * u) by { Reassociate(v, q, u); }
    assert q * (c * d) == (q * c) * d by { Reassociate(q, c, d); }
    PositiveFactor(p * v, q * c, d);
  }

  lemma Reassociate(x: int, y: int, z: int)
    ensures (x * y) * z == y * (x * z) == x * (y * z)
  {
  }

  /** Past the crossing, a coordinate lies on b's side of the truncated crossing. */
  lemma PastCrossing(s: int, v: int, c: int, u: int, d: int, p: int, q: int)
    requires d > 0 && 0 <= u <= d && IsTruncated(c, v, u, d) && 0 < q && p * d >= q * u
    ensures v <= 0 ==> q * s + p * v <= q * (s + c)
    ensures v >= 0 ==> q * s + p * v >= q * (s + c)
  {
    assert q * (s + c) == q * s + q * c;
    if v <= 0 {
      OrderScaled(0, u, v);
      OrderScaled(0, d, c);
      PastFalling(v, c, u, d, p, q);
    }
    if v >= 0 {
      OrderScaled(0, u, v);
      OrderScaled(0, d, c);
      assert -v * u == -(v * u) && -c * d == -(c * d);
      PastFalling(-v, -c, u, d, p, q);
      assert p * -v == -(p * v) && q * -c == -(q * c);
    }
  }

  lemma PastCrossingBounds(s: int, v: int, c: int, u: int, d: int, p: int, q: int, n: int)
    requires d > 0 && 0 <= u <= d && IsTruncated(c, v, u, d) && 0 < q && p * d >= q * u
    ensures v <= 0 && s + c < 0 ==> q * s + p * v < 0
    ensures v >= 0 && s + c >= n ==> q * s + p * v > q * (n - 1)
  {
    PastCrossing(s, v, c, u, d, p, q);
    if s + c < 0 {
      OrderScaled(s + c, -1, q);
    }
    if s + c >= n {
      OrderScaled(n, s + c, q);
    }
  }

  lemma ReachBackward(s: int, e: int, l: int, p: int, q: int)
    requires q * s + p * (e - s) <= q * l
    ensures p * (s - e) >= q * (s - l)
  {
    assert p * (s - e) == -(p * (e - s));
    assert q * (s - l) == q * s - q * l;
  }

  lemma ReachForward(s: int, e: int, p: int, q: int)
    requires 0 <= q * s + p * (e - s)
    ensures p * (e - s) >= q * (0 - s)
  {
    assert q * (0 - s) == -(q * s);
  }

  lemma HiddenAbove(t: Point, a: Point, b: Point, w: int, h: int, p: int, q: int)
    requires CodeOf(a, w, h).top && !CodeOf(a, w, h).Shares(CodeOf(b, w, h))
    requires Cuts(t, a, a, b, w, h) && OnCrossing(t, a, a, b, w, h) && CodeOf(t, w, h).Shares(CodeOf(b, w, h))
    requires w >= 1 && h >= 1 && 0 < q && 0 <= p <= q
    ensures !Visible(a, b, p, q, w, h)
  {
    hide IsTruncated;
    if Visible(a, b, p, q, w, h) {
      ReachForward(a.y, b.y, p, q);
      PastCrossingBounds(a.x, b.x - a.x, t.x - a.x, 0 - a.y, b.y - a.y, p, q, w);
    }
  }

  lemma HiddenBelow(t: Point, a: Point, b: Point, w: int, h: int, p: int, q: int)
    requires CodeOf(a, w, h).bottom && !CodeOf(a, w, h).Shares(CodeOf(b, w, h))
    requires Cuts(t, a, a, b, w, h) && OnCrossing(t, a, a, b, w, h) && CodeOf(t, w, h).Shares(CodeOf(b, w, h))
    requires w >= 1 && h >= 1 && 0 < q && 0 <= p <= q
    ensures !Visible(a, b, p, q, w, h)
  {
    hide IsTruncated;
    if Visible(a, b, p, q, w, h) {
      var d := a.y - b.y;
      OrderScaled(h - 1, h, q);
      ReachBackward(a.y, b.y, h, p, q);
      TruncatedFlip(t.x - a.x, b.x - a.x, a.y - h, d);
      PastCrossingBounds(a.x, b.x - a.x, t.x - a.x, a.y - h, d, p, q, w);
    }
  }

  lemma HiddenRight(t: Point, a: Point, b: Point, w: int, h: int, p: int, q: int)
    requires CodeOf(a, w, h).right && !CodeOf(a, w, h).top && !CodeOf(a, w, h).bottom
             && !CodeOf(a, w, h).Shares(CodeOf(b, w, h))
    requires Cuts(t, a, a, b, w, h) && OnCrossing(t, a, a, b, w, h) && CodeOf(t, w, h).Shares(CodeOf(b, w, h))
    requires w >= 1 && h >= 1 && 0 < q && 0 <= p <= q
    ensures !Visible(a, b, p, q, w, h)
  {
    hide IsTruncated;
    if Visible(a, b, p, q, w, h) {
      var d := a.x - b.x;
      ReachBackward(a.x, b.x, w - 1, p, q);
      TruncatedFlip(t.y - a.y, b.y - a.y, a.x - (w - 1), d);
      PastCrossingBounds(a.y, b.y - a.y, t.y - a.y, a.x - (w - 1), d, p, q, h);
    }
  }

  lemma HiddenLeft(t: Point, a: Point, b: Point, w: int, h: int, p: int, q: int)
    requires CodeOf(a, w, h).left && !CodeOf(a, w, h).top && !CodeOf(a, w, h).bottom
             && !CodeOf(a, w, h).Shares(CodeOf(b, w, h))
    requires Cuts(t, a, a, b, w, h) && OnCrossing(t, a, a, b, w, h) && CodeOf(t, w, h).Shares(CodeOf(b, w, h))
    requires w >= 1 && h >= 1 && 0 < q && 0 <= p <= q
    ensures !Visible(a, b, p, q, w, h)
  {
    hide IsTruncated;
    if Visible(a, b, p, q, w, h) {
      ReachForward(a.x, b.x, p, q);
      PastCrossingBounds(a.y, b.y - a.y, t.y - a.y, 0 - a.x, b.x - a.x, p, q, h);
    }
  }

  /** Rejecting after a cut is justified: no point of the segment lies in the window. */
  lemma RejectedIsHidden(t: Point, a: Point, b: Point, w: int, h: int, p: int, q: int)
    requires CodeOf(a, w, h).Any() && !CodeOf(a, w, h).Shares(CodeOf(b, w, h))
    requires Cuts(t, a, a, b, w, h) && OnCrossing(t, a, a, b, w, h) && CodeOf(t, w, h).Shares(CodeOf(b, w, h))
    requires w >= 1 && h >= 1 && 0 < q && 0 <= p <= q
    ensures !Visible(a, b, p, q, w, h)
  {
    hide Cuts, OnCrossing, Visible;
    if CodeOf(a, w, h).top {
      HiddenAbove(t, a, b, w, h, p, q);
    } else if CodeOf(a, w, h).bottom {
      HiddenBelow(t, a, b, w, h, p, q);
    } else if CodeOf(a, w, h).right {
      HiddenRight(t, a, b, w, h, p, q);
    } else {
      HiddenLeft(t, a, b, w, h, p, q);
    }
  }

  /** The rejection before any cut is justified too. */
  lemma SharedIsHidden(a: Point, b: Point, w: int, h: int, p: int, q: int)
    requires CodeOf(a, w, h).Shares(CodeOf(b, w, h)) && 0 < q && 0 <= p <= q
    ensures !Visible(a, b, p, q, w, h)
  {
    Blend(a.x, b.x, p, q, w);
    Blend(a.y, b.y, p, q, h);
  }

  /** A blend of two coordinates on the same side stays on that side. */
  lemma Blend(s: int, e: int, p: int, q: int, n: int)
    requires 0 < q && 0 <= p <= q
    ensures s < 0 && e < 0 ==> q * s + p * (e - s) < 0
    ensures s >= n && e >= n ==> q * s + p * (e - s) > q * (n - 1)
  {
    BlendWeights(s, e, p, q);
    if s < 0 && e < 0 {
      OrderScaled(s, -1, q - p);
      OrderScaled(e, -1, p);
    }
    if s >= n && e >= n {
      OrderScaled(n, s, q - p);
      OrderScaled(n, e, p);
      BlendWeights(n, n, p, q);
      assert q * (n - 1) == q * n - q;
    }
  }

  lemma BlendWeights(s: int, e: int, p: int, q: int)
    ensures q * s + p * (e - s) == (q - p) * s + p * e
  {
  }

  ghost predicate Hidden(a: Point, b: Point, w: int, h: int) {
    forall p, q | 0 < q && 0 <= p <= q :: !Visible(a, b, p, q, w, h)
  }

  /** A segment that is rejected right after a cut has no point in the window. The segment meant is
      the one before that cut, which for a line cut twice is not the original one. */
  lemma RejectionIsSound(t: Point, r: Point, a: Point, b: Point, w: int, h: int)
    requires w >= 1 && h >= 1 && !CodeOf(a, w, h).Shares(CodeOf(b, w, h))
    requires r == if CodeOf(a, w, h).Any() then a else b
    requires Cuts(t, r, a, b, w, h) && OnCrossing(t, r, a, b, w, h)
    requires if r == a then CodeOf(t, w, h).Shares(CodeOf(b, w, h)) else CodeOf(a, w, h).Shares(CodeOf(t, w, h))
    ensures Hidden(a, b, w, h)
  {
    assert r == a && CodeOf(a, w, h).Any();
    hide Cuts, OnCrossing, Visible;
    forall p, q | 0 < q && 0 <= p <= q ensures !Visible(a, b, p, q, w, h) {
      RejectedIsHidden(t, a, b, w, h, p, q);
    }
  }

  lemma SharingIsSound(a: Point, b: Point, w: int, h: int)
    requires CodeOf(a, w, h).Shares(CodeOf(b, w, h))
    ensures Hidden(a, b, w, h)
  {
    forall p, q | 0 < q && 0 <= p <= q ensures !Visible(a, b, p, q, w, h) {
      SharedIsHidden(a, b, w, h, p, q);
    }
  }

  const INT_MAX := 0x7fff_ffff

  predicate Small(v: int) {
    Abs(v) <= 0x4000
  }

  /** With coordinates and window within 2^14 no product in the loop leaves a 32-bit int; the
      endpoints of later passes stay in the box of the first. */
  lemma ProductsFit(a: Point, b: Point, w: int, h: int)
    requires Small(a.x) && Small(a.y) && Small(b.x) && Small(b.y) && Small(w) && Small(h)
    ensures Abs((b.x - a.x) * a.y) <= INT_MAX && Abs((b.x - a.x) * (a.y - h)) <= INT_MAX
    ensures Abs((b.y - a.y) * (w - 1 - a.x)) <= INT_MAX && Abs((b.y - a.y) * -a.x) <= INT_MAX
  {
    BoundedProduct(b.x - a.x, a.y);
    BoundedProduct(b.x - a.x, a.y - h);
    BoundedProduct(b.y - a.y, w - 1 - a.x);
    BoundedProduct(b.y - a.y, -a.x);
  }

  lemma BoundedProduct(x: int, y: int)
    requires Abs(x) <= 0x8000 && Abs(y) <= 0x8001
    ensures Abs(x * y) <= INT_MAX
  {
    AbsProduct(x, y);
    Scale(Abs(x), 0x8000, Abs(y));
  }
}
