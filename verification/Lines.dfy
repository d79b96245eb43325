/** Integer line drawing: AM_drawFline of apps/doom/am_map.c and sys_drawline of
    lib/libstink_gfx.c, both proved against one closed form for the pixels of a line. */
module LineModel {
  import opened Common

  datatype Point = Point(x: int, y: int)

  function Abs(v: int): nat {
    if v < 0 then -v else v
  }

  // ------------------------------------------------------- the ideal pixel line

  /** m is the multiple of `major` nearest to k * minor, halves going up. */
  ghost predicate Nearest(k: int, m: int, minor: nat, major: nat) {
    2 * (m * major) - major <= 2 * (k * minor) < 2 * (m * major) + major
  }

  function Minor(k: nat, minor: nat, major: nat): nat
    requires major > 0
  {
    (2 * (k * minor) + major) / (2 * major)
  }

  lemma MinorIsNearest(k: nat, minor: nat, major: nat)
    requires major > 0
    ensures Nearest(k, Minor(k, minor, major), minor, major)
  {
    var t, q := 2 * (k * minor) + major, Minor(k, minor, major);
    assert t == q * (2 * major) + t % (2 * major);
    assert q * (2 * major) == 2 * (q * major);
  }

  lemma NextMultiple(m: int, n: int, major: nat)
    requires m < n
    ensures m * major + major <= n * major
  {
    assert (n - m - 1) * major >= 0;
    assert n * major == m * major + (n - m - 1) * major + major;
  }

  lemma NearestIsUnique(k: int, m: int, n: int, minor: nat, major: nat)
    requires Nearest(k, m, minor, major) && Nearest(k, n, minor, major)
    ensures m == n
  {
    if m < n {
      NextMultiple(m, n, major);
    } else if n < m {
      NextMultiple(n, m, major);
    }
  }

  /** Exactness: the plotted offset is never more than half a pixel from the true line. */
  lemma MinorError(k: nat, minor: nat, major: nat)
    requires major > 0
    ensures 2 * Abs(k * minor - Minor(k, minor, major) * major) <= major
  {
    MinorIsNearest(k, minor, major);
  }

  lemma MinorAt(k: nat, m: int, minor: nat, major: nat)
    requires Nearest(k, m, minor, major) && major > 0
    ensures m == Minor(k, minor, major)
  {
    MinorIsNearest(k, minor, major);
    NearestIsUnique(k, m, Minor(k, minor, major), minor, major);
  }

  /** The line starts and ends on its endpoints and never leaves the rows between them. */
  lemma MinorRange(k: nat, minor: nat, major: nat)
    requires major > 0 && k <= major
    ensures Minor(0, minor, major) == 0 && Minor(major, minor, major) == minor
    ensures Minor(k, minor, major) <= minor
  {
    MinorAt(0, 0, minor, major);
    MinorAt(major, minor, minor, major);
    MinorIsNearest(k, minor, major);
    assert k * minor <= major * minor by { Scale(k, major, minor); }
    if Minor(k, minor, major) > minor {
      NextMultiple(minor, Minor(k, minor, major), major);
    }
  }

  function Length(a: Point, b: Point): nat {
    var dx, dy := Abs(b.x - a.x), Abs(b.y - a.y);
    if dx > dy then dx else dy
  }

  /** n steps from `from` in the direction of `to`. */
  function Walk(from: int, to: int, n: int): int {
    if to < from then from - n else from + n
  }

  /** The k-th pixel of the line from a to b. */
  function PixelAt(a: Point, b: Point, k: nat): Point {
    var dx, dy := Abs(b.x - a.x), Abs(b.y - a.y);
    if dx > dy then Point(Walk(a.x, b.x, k), Walk(a.y, b.y, Minor(k, dy, dx)))
    else if dy > 0 then Point(Walk(a.x, b.x, Minor(k, dx, dy)), Walk(a.y, b.y, k))
    else a
  }

  ghost predicate OnLine(a: Point, b: Point, p: Point) {
    exists k :: 0 <= k <= Length(a, b) && PixelAt(a, b, k) == p
  }

  predicate Between(v: int, p: int, q: int) {
    p <= v <= q || q <= v <= p
  }

  /** One pixel per major step, from one endpoint to the other, inside their bounding box. */
  lemma LineShape(a: Point, b: Point, k: nat)
    requires k <= Length(a, b)
    ensures PixelAt(a, b, 0) == a && PixelAt(a, b, Length(a, b)) == b
    ensures Between(PixelAt(a, b, k).x, a.x, b.x) && Between(PixelAt(a, b, k).y, a.y, b.y)
  {
    hide Minor;
    var dx, dy := Abs(b.x - a.x), Abs(b.y - a.y);
    if dx > dy {
      MinorRange(k, dy, dx);
    } else if dy > 0 {
      MinorRange(k, dx, dy);
    }
  }

  /** m minor steps are the rounding of k major ones, halves going up. */
  predicate Rounds(k: int, m: int, minor: int, major: int) {
    2 * m * major - major <= 2 * k * minor < 2 * m * major + major
  }

  /** Which points are on the line, without counting along it: those between the ends on the longer axis
      whose other coordinate is rounded from the true line. */
  lemma OnLineIff(a: Point, b: Point, p: Point)
    ensures var dx, dy := Abs(b.x - a.x), Abs(b.y - a.y);
            var k, m := if b.x < a.x then a.x - p.x else p.x - a.x, if b.y < a.y then a.y - p.y else p.y - a.y;
            OnLine(a, b, p) <==> if dx > dy then 0 <= k <= dx && Rounds(k, m, dy, dx)
                                 else if dy > 0 then 0 <= m <= dy && Rounds(m, k, dx, dy)
                                 else p == a
  {
    hide Minor;
    var dx, dy := Abs(b.x - a.x), Abs(b.y - a.y);
    if dx > dy {
      OnWide(a, b, p);
    } else if dy > 0 {
      OnTall(a, b, p);
    } else {
      assert OnLine(a, b, p) ==> p == a;
      assert PixelAt(a, b, 0) == a;
    }
  }

  lemma RoundsIsNearest(k: int, m: int, minor: nat, major: nat)
    ensures Rounds(k, m, minor, major) <==> Nearest(k, m, minor, major)
  {
    assert 2 * m * major == 2 * (m * major) && 2 * k * minor == 2 * (k * minor);
  }

  lemma OnWide(a: Point, b: Point, p: Point)
    requires Abs(b.x - a.x) > Abs(b.y - a.y)
    ensures var k, m := if b.x < a.x then a.x - p.x else p.x - a.x, if b.y < a.y then a.y - p.y else p.y - a.y;
            OnLine(a, b, p) <==> 0 <= k <= Abs(b.x - a.x) && Rounds(k, m, Abs(b.y - a.y), Abs(b.x - a.x))
  {
    hide Minor, Nearest, Rounds;
    var dx, dy := Abs(b.x - a.x), Abs(b.y - a.y);
    var k, m := if b.x < a.x then a.x - p.x else p.x - a.x, if b.y < a.y then a.y - p.y else p.y - a.y;
    RoundsIsNearest(k, m, dy, dx);
    if OnLine(a, b, p) {
      var j :| 0 <= j <= Length(a, b) && PixelAt(a, b, j) == p;
      MinorIsNearest(j, dy, dx);
    }
    if 0 <= k <= dx && Nearest(k, m, dy, dx) {
      MinorAt(k, m, dy, dx);
      assert PixelAt(a, b, k) == p;
    }
  }

  lemma OnTall(a: Point, b: Point, p: Point)
    requires Abs(b.x - a.x) <= Abs(b.y - a.y) && Abs(b.y - a.y) > 0
    ensures var k, m := if b.x < a.x then a.x - p.x else p.x - a.x, if b.y < a.y then a.y - p.y else p.y - a.y;
            OnLine(a, b, p) <==> 0 <= m <= Abs(b.y - a.y) && Rounds(m, k, Abs(b.x - a.x), Abs(b.y - a.y))
  {
    hide Minor, Nearest, Rounds;
    var dx, dy := Abs(b.x - a.x), Abs(b.y - a.y);
    var k, m := if b.x < a.x then a.x - p.x else p.x - a.x, if b.y < a.y then a.y - p.y else p.y - a.y;
    RoundsIsNearest(m, k, dx, dy);
    if OnLine(a, b, p) {
      var j :| 0 <= j <= Length(a, b) && PixelAt(a, b, j) == p;
      MinorIsNearest(j, dx, dy);
    }
    if 0 <= m <= dy && Nearest(m, k, dx, dy) {
      MinorAt(m, k, dx, dy);
      assert PixelAt(a, b, m) == p;
    }
  }

  /** The decision variable of AM_drawFline after k major and m minor steps. */
  ghost predicate Tracks(k: int, m: int, minor: nat, major: nat, d: int) {
    && d == 2 * (k * minor) + 2 * minor - 2 * (m * major) - major
    && (major > 0 ==> Nearest(k, m, minor, major))
  }

  lemma TrackStart(minor: nat, major: nat)
    ensures Tracks(0, 0, minor, major, 2 * minor - (major as int))
  {
  }

  lemma TrackStep(k: int, m: int, minor: nat, major: nat, d: int)
    requires Tracks(k, m, minor, major, d) && minor <= major && major > 0
    ensures if d >= 0 then Tracks(k + 1, m + 1, minor, major, d - 2 * major + 2 * minor)
            else Tracks(k + 1, m, minor, major, d + 2 * minor)
  {
    assert (k + 1) * minor == k * minor + minor;
    assert (m + 1) * major == m * major + major;
  }

  lemma TrackedPixel(a: Point, b: Point, k: nat, m: int, d: int)
    requires var dx, dy := Abs(b.x - a.x), Abs(b.y - a.y);
             if dx > dy then Tracks(k, m, dy, dx, d) else Tracks(k, m, dx, dy, d) && (dy == 0 ==> k == m == 0)
    ensures PixelAt(a, b, k) == if Abs(b.x - a.x) > Abs(b.y - a.y)
                                then Point(Walk(a.x, b.x, k), Walk(a.y, b.y, m))
                                else Point(Walk(a.x, b.x, m), Walk(a.y, b.y, k))
  {
    var dx, dy := Abs(b.x - a.x), Abs(b.y - a.y);
    if dx > dy {
      MinorAt(k, m, dy, dx);
    } else if dy > 0 {
      MinorAt(k, m, dx, dy);
    }
  }

  // ------------------------------------------------------------- AM_drawFline

  predicate InWindow(p: Point, w: nat, h: nat) {
    0 <= p.x < w && 0 <= p.y < h
  }

  lemma IndexInRange(x: int, y: int, w: nat, h: nat)
    requires 0 <= x < w && 0 <= y < h
    ensures 0 <= y * w + x < w * h
  {
    assert (y + 1) * w <= h * w;
  }

  ghost predicate Painted(a: Point, b: Point, w: nat, n: nat, i: int) {
    exists k :: 0 <= k < n && var p := PixelAt(a, b, k); p.y * w + p.x == i
  }

  lemma PaintedNone(a: Point, b: Point, w: nat)
    ensures forall i :: !Painted(a, b, w, 0, i)
  {
  }

  lemma PaintedNext(a: Point, b: Point, w: nat, n: nat, i: int)
    ensures Painted(a, b, w, n + 1, i) <==> Painted(a, b, w, n, i) || var p := PixelAt(a, b, n); p.y * w + p.x == i
  {
  }

  method DrawFline(fb: array<int>, w: nat, h: nat, a: Point, b: Point, color: int)
    requires w * h <= fb.Length
    modifies fb
    ensures !(InWindow(a, w, h) && InWindow(b, w, h)) ==> fb[..] == old(fb[..])
    ensures InWindow(a, w, h) && InWindow(b, w, h) ==>
              forall i | 0 <= i < fb.Length ::
                fb[i] == if Painted(a, b, w, Length(a, b) + 1, i) then color else old(fb[i])
  {
    if a.x < 0 || a.x >= w || a.y < 0 || a.y >= h || b.x < 0 || b.x >= w || b.y < 0 || b.y >= h { return; }
    var dx := b.x - a.x;
    var ax := 2 * (if dx < 0 then -dx else dx);
    var sx := if dx < 0 then -1 else 1;
    var dy := b.y - a.y;
    var ay := 2 * (if dy < 0 then -dy else dy);
    var sy := if dy < 0 then -1 else 1;
    if ax > ay {
      DrawWide(fb, w, h, a, b, color, ax, ay, sx, sy);
    } else {
      DrawTall(fb, w, h, a, b, color, ax, ay, sx, sy);
    }
  }

  method DrawWide(fb: array<int>, w: nat, h: nat, a: Point, b: Point, color: int, ax: int, ay: int, sx: int, sy: int)
    requires w * h <= fb.Length && InWindow(a, w, h) && InWindow(b, w, h)
    requires ax == 2 * Abs(b.x - a.x) > ay == 2 * Abs(b.y - a.y) && sx == Walk(a.x, b.x, 1) - a.x
             && sy == Walk(a.y, b.y, 1) - a.y
    modifies fb
    ensures forall i | 0 <= i < fb.Length ::
              fb[i] == if Painted(a, b, w, Length(a, b) + 1, i) then color else old(fb[i])
  {
    hide Tracks, Painted, PixelAt;
    ghost var major: nat, minor: nat, k: nat, m: int := Abs(b.x - a.x), Abs(b.y - a.y), 0, 0;
    var x, y := a.x, a.y;
    var d := ay - ax / 2;
    TrackStart(minor, major);
    PaintedNone(a, b, w);
    while true
      invariant k <= major && x == Walk(a.x, b.x, k) && y == Walk(a.y, b.y, m)
      invariant Tracks(k, m, minor, major, d) && (major == 0 ==> m == 0)
      invariant forall i | 0 <= i < fb.Length :: fb[i] == if Painted(a, b, w, k, i) then color else old(fb[i])
      decreases major - k
    {
      TrackedPixel(a, b, k, m, d);
      LineShape(a, b, k);
      IndexInRange(x, y, w, h);
      fb[y * w + x] := color;
      forall i | 0 <= i < fb.Length ensures fb[i] == if Painted(a, b, w, k + 1, i) then color else old(fb[i]) {
        PaintedNext(a, b, w, k, i);
      }
      if x == b.x { return; }
      TrackStep(k, m, minor, major, d);
      if d >= 0 {
        y := y + sy;
        d := d - ax;
        m := m + 1;
      }
      x := x + sx;
      d := d + ay;
      k := k + 1;
    }
  }

  method DrawTall(fb: array<int>, w: nat, h: nat, a: Point, b: Point, color: int, ax: int, ay: int, sx: int, sy: int)
    requires w * h <= fb.Length && InWindow(a, w, h) && InWindow(b, w, h)
    requires ax == 2 * Abs(b.x - a.x) <= ay == 2 * Abs(b.y - a.y) && sx == Walk(a.x, b.x, 1) - a.x
             && sy == Walk(a.y, b.y, 1) - a.y
    modifies fb
    ensures forall i | 0 <= i < fb.Length ::
              fb[i] == if Painted(a, b, w, Length(a, b) + 1, i) then color else old(fb[i])
  {
    hide Tracks, Painted, PixelAt;
    ghost var major: nat, minor: nat, k: nat, m: int := Abs(b.y - a.y), Abs(b.x - a.x), 0, 0;
    var x, y := a.x, a.y;
    var d := ax - ay / 2;
    TrackStart(minor, major);
    PaintedNone(a, b, w);
    while true
      invariant k <= major && y == Walk(a.y, b.y, k) && x == Walk(a.x, b.x, m)
      invariant Tracks(k, m, minor, major, d) && (major == 0 ==> m == 0)
      invariant forall i | 0 <= i < fb.Length :: fb[i] == if Painted(a, b, w, k, i) then color else old(fb[i])
      decreases major - k
    {
      TrackedPixel(a, b, k, m, d);
      LineShape(a, b, k);
      IndexInRange(x, y, w, h);
      fb[y * w + x] := color;
      forall i | 0 <= i < fb.Length ensures fb[i] == if Painted(a, b, w, k + 1, i) then color else old(fb[i]) {
        PaintedNext(a, b, w, k, i);
      }
      if y == b.y { return; }
      TrackStep(k, m, minor, major, d);
      if d >= 0 {
        x := x + sx;
        d := d - ay;
        m := m + 1;
      }
      y := y + sy;
      d := d + ax;
      k := k + 1;
    }
  }

  // ------------------------------------------------------------- sys_drawline

  const SCREEN_W: nat := 1024
  const SCREEN_H: nat := 768

  ghost predicate OnScreen(screen: array2<int>) {
    screen.Length0 == SCREEN_W && screen.Length1 == SCREEN_H
  }

  /** The error term of sys_drawline, in the products X = j * dx and Y = i * dy of i steps in x and j in y. */
  ghost predicate Balanced(X: int, Y: int, dx: nat, dy: nat, err: int) {
    && err == X + dx - Y - dy
    && (dx > dy ==> 2 * X - dx <= 2 * Y < 2 * X + dx)
    && (dx <= dy && dy > 0 ==> 2 * Y - dy <= 2 * X < 2 * Y + dy)
  }

  ghost predicate Steers(i: int, j: int, dx: nat, dy: nat, err: int) {
    Balanced(j * dx, i * dy, dx, dy, err)
  }

  lemma BalanceStep(X: int, Y: int, dx: nat, dy: nat, err: int)
    requires Balanced(X, Y, dx, dy, err) && (dx > 0 || dy > 0) && (dx == 0 ==> Y == 0) && (dy == 0 ==> X == 0)
    ensures var right, down := 2 * err >= -(dy as int), 2 * err <= dx;
            && (dx > dy ==> right) && (dx <= dy ==> down) && (dx == 0 ==> !right) && (dy == 0 ==> !down)
            && Balanced(if down then X + dx else X, if right then Y + dy else Y, dx, dy,
                        err - (if right then dy else 0) + (if down then dx else 0))
  {
  }

  /** Both tests of the loop are right at once: the major coordinate always moves. */
  lemma SteerStep(i: int, j: int, dx: nat, dy: nat, err: int)
    requires Steers(i, j, dx, dy, err) && (dx > 0 || dy > 0)
    ensures var right, down := 2 * err >= -(dy as int), 2 * err <= dx;
            && (dx > dy ==> right) && (dx <= dy ==> down) && (dx == 0 ==> !right) && (dy == 0 ==> !down)
            && Steers(if right then i + 1 else i, if down then j + 1 else j, dx, dy,
                      err - (if right then dy else 0) + (if down then dx else 0))
  {
    assert dx == 0 ==> i * dy == 0 by {
      if dx == 0 { NearestIsUnique(j, i, 0, 0, dy); }
    }
    assert dy == 0 ==> j * dx == 0 by {
      if dy == 0 { NearestIsUnique(i, j, 0, 0, dx); }
    }
    hide Balanced;
    BalanceStep(j * dx, i * dy, dx, dy, err);
    assert (i + 1) * dy == i * dy + dy && (j + 1) * dx == j * dx + dx;
  }

  ghost predicate Drawn(a: Point, b: Point, n: nat, p: Point) {
    exists k :: 0 <= k < n && PixelAt(a, b, k) == p
  }

  lemma DrawnNext(a: Point, b: Point, n: nat, p: Point)
    ensures Drawn(a, b, n + 1, p) <==> Drawn(a, b, n, p) || PixelAt(a, b, n) == p
  {
  }

  lemma DrawnNone(a: Point, b: Point)
    ensures forall p :: !Drawn(a, b, 0, p)
  {
  }

  lemma DrawnAll(a: Point, b: Point, p: Point)
    ensures Drawn(a, b, Length(a, b) + 1, p) <==> OnLine(a, b, p)
  {
    if Drawn(a, b, Length(a, b) + 1, p) {
      var k :| 0 <= k < Length(a, b) + 1 && PixelAt(a, b, k) == p;
      assert k <= Length(a, b);
    }
  }

  lemma SteeredPixel(a: Point, b: Point, i: nat, j: nat, err: int)
    requires var dx, dy := Abs(b.x - a.x), Abs(b.y - a.y);
             Steers(i, j, dx, dy, err) && (dx == dy == 0 ==> i == j == 0)
    ensures PixelAt(a, b, if Abs(b.x - a.x) > Abs(b.y - a.y) then i else j)
            == Point(Walk(a.x, b.x, i), Walk(a.y, b.y, j))
  {
    var dx, dy := Abs(b.x - a.x), Abs(b.y - a.y);
    if dx > dy {
      MinorAt(i, j, dy, dx);
    } else if dy > 0 {
      MinorAt(j, i, dx, dy);
    }
  }

  method SysDraw(screen: array2<int>, x: int, y: int, rgb: int)
    requires 0 <= x < screen.Length0 && 0 <= y < screen.Length1
    modifies screen
    ensures forall i, j | 0 <= i < screen.Length0 && 0 <= j < screen.Length1 ::
              screen[i, j] == if i == x && j == y then rgb else old(screen[i, j])
  {
    screen[x, y] := rgb;
  }

  method SysFillRect(screen: array2<int>, x: int, y: int, w: int, h: int, rgb: int)
    requires 0 <= x <= x + w <= screen.Length0 && 0 <= y <= y + h <= screen.Length1
    modifies screen
    ensures forall i, j | 0 <= i < screen.Length0 && 0 <= j < screen.Length1 ::
              screen[i, j] == if InRun(i, x, w) && InRun(j, y, h) then rgb else old(screen[i, j])
  {
    forall i, j | x <= i < x + w && y <= j < y + h {
      screen[i, j] := rgb;
    }
  }

  ghost function MajorSteps(a: Point, b: Point, i: nat, j: nat): nat {
    if Abs(b.x - a.x) > Abs(b.y - a.y) then i else j
  }

  /** The loop of sys_drawline at (x, y), after i steps in x and j steps in y. */
  ghost predicate StandsAt(a: Point, b: Point, i: nat, j: nat, err: int, x: int, y: int) {
    && x == Walk(a.x, b.x, i) && y == Walk(a.y, b.y, j)
    && Steers(i, j, Abs(b.x - a.x), Abs(b.y - a.y), err)
    && MajorSteps(a, b, i, j) <= Length(a, b) && (Length(a, b) == 0 ==> i == j == 0)
  }

  lemma Standing(a: Point, b: Point, i: nat, j: nat, err: int, x: int, y: int)
    requires StandsAt(a, b, i, j, err, x, y)
    ensures var k := MajorSteps(a, b, i, j);
            k <= Length(a, b) && PixelAt(a, b, k) == Point(x, y) && (Point(x, y) == b <==> k == Length(a, b))
  {
    hide Steers, PixelAt;
    SteeredPixel(a, b, i, j, err);
    LineShape(a, b, MajorSteps(a, b, i, j));
  }

  lemma Advance(a: Point, b: Point, i: nat, j: nat, err: int, x: int, y: int)
    requires StandsAt(a, b, i, j, err, x, y) && Point(x, y) != b
    ensures var dx, dy := Abs(b.x - a.x), Abs(b.y - a.y);
            var right, down := 2 * err >= -(dy as int), 2 * err <= dx;
            var i', j' := if right then i + 1 else i, if down then j + 1 else j;
            && StandsAt(a, b, i', j', err - (if right then dy else 0) + (if down then dx else 0),
                        if right then (if b.x <= a.x then x - 1 else x + 1) else x,
                        if down then (if b.y <= a.y then y - 1 else y + 1) else y)
            && MajorSteps(a, b, i', j') == MajorSteps(a, b, i, j) + 1
  {
    hide Steers;
    Standing(a, b, i, j, err, x, y);
    SteerStep(i, j, Abs(b.x - a.x), Abs(b.y - a.y), err);
  }

  /** The general loop, on any two endpoints: Length + 1 positions, of which the on-screen ones are drawn. */
  method DrawGeneral(screen: array2<int>, a: Point, b: Point, rgb: int) returns (ghost positions: nat)
    requires OnScreen(screen)
    modifies screen
    ensures positions == Length(a, b) + 1
    ensures forall i, j | 0 <= i < SCREEN_W && 0 <= j < SCREEN_H ::
              screen[i, j] == if OnLine(a, b, Point(i, j)) then rgb else old(screen[i, j])
  {
    hide StandsAt, MajorSteps, Drawn, PixelAt, OnLine, Length;
    var x0, y0 := a.x, a.y;
    var dx := Abs(b.x - a.x);
    var sx := if a.x < b.x then 1 else -1;
    var dy: int := 0 - Abs(b.y - a.y);
    var sy := if a.y < b.y then 1 else -1;
    var err := dx + dy;
    ghost var i: nat, j: nat, k: nat := 0, 0, 0;
    StandingStart(a, b);
    DrawnNone(a, b);
    while true
      invariant StandsAt(a, b, i, j, err, x0, y0) && k == MajorSteps(a, b, i, j) <= Length(a, b)
      invariant forall x, y | 0 <= x < SCREEN_W && 0 <= y < SCREEN_H ::
                  screen[x, y] == if Drawn(a, b, k, Point(x, y)) then rgb else old(screen[x, y])
      decreases Length(a, b) - k
    {
      Standing(a, b, i, j, err, x0, y0);
      if 0 <= x0 < SCREEN_W && 0 <= y0 < SCREEN_H {
        SysDraw(screen, x0, y0, rgb);
      }
      forall x, y | 0 <= x < SCREEN_W && 0 <= y < SCREEN_H
        ensures screen[x, y] == if Drawn(a, b, k + 1, Point(x, y)) then rgb else old(screen[x, y])
      {
        DrawnNext(a, b, k, Point(x, y));
      }
      if x0 == b.x && y0 == b.y { break; }
      Advance(a, b, i, j, err, x0, y0);
      var e2 := 2 * err;
      if e2 >= dy {
        err := err + dy;
        x0 := x0 + sx;
        i := i + 1;
      }
      if e2 <= dx {
        err := err + dx;
        y0 := y0 + sy;
        j := j + 1;
      }
      k := k + 1;
      Standing(a, b, i, j, err, x0, y0);
    }
    positions := k + 1;
    forall x, y | 0 <= x < SCREEN_W && 0 <= y < SCREEN_H
      ensures screen[x, y] == if OnLine(a, b, Point(x, y)) then rgb else old(screen[x, y])
    {
      DrawnAll(a, b, Point(x, y));
    }
  }

  lemma StandingStart(a: Point, b: Point)
    ensures StandsAt(a, b, 0, 0, Abs(b.x - a.x) - Abs(b.y - a.y) as int, a.x, a.y) && MajorSteps(a, b, 0, 0) == 0
  {
    SteerStart(Abs(b.x - a.x), Abs(b.y - a.y));
  }

  lemma SteerStart(dx: nat, dy: nat)
    ensures Steers(0, 0, dx, dy, dx - dy as int)
  {
  }

  /** An axis-aligned line is the run of pixels between its endpoints. */
  lemma AxisAligned(a: Point, b: Point, p: Point)
    requires a.x == b.x || a.y == b.y
    ensures OnLine(a, b, p) <==> Between(p.x, a.x, b.x) && Between(p.y, a.y, b.y)
  {
    hide Minor;
    if OnLine(a, b, p) {
      var k :| 0 <= k <= Length(a, b) && PixelAt(a, b, k) == p;
      LineShape(a, b, k);
    }
    if Between(p.x, a.x, b.x) && Between(p.y, a.y, b.y) {
      var k := if a.x == b.x then Abs(p.y - a.y) else Abs(p.x - a.x);
      if Length(a, b) > 0 {
        MinorAt(k, 0, 0, Length(a, b));
      }
      assert PixelAt(a, b, k) == p;
    }
  }

  method SysDrawLine(screen: array2<int>, a: Point, b: Point, rgb: int)
    requires OnScreen(screen)
    modifies screen
    ensures screen.Length0 == 1024 && screen.Length1 == 768
    ensures forall i, j | 0 <= i < 1024 && 0 <= j < 768 ::
              screen[i, j] == if OnLine(a, b, Point(i, j)) then rgb else old(screen[i, j])
  {
    hide OnLine;
    forall i, j | a.x == b.x || a.y == b.y
      ensures OnLine(a, b, Point(i, j)) <==> Between(i, a.x, b.x) && Between(j, a.y, b.y)
    {
      AxisAligned(a, b, Point(i, j));
    }
    if a.x == b.x {
      if a.x < 0 || a.x >= SCREEN_W { return; }
      var y, h := if a.y < b.y then a.y else b.y, Abs(b.y - a.y) + 1;
      var y', h' := ClipRun(y, h, SCREEN_H);
      assert forall j | 0 <= j < SCREEN_H :: InRun(j, y', h') <==> Between(j, a.y, b.y);
      if h' > 0 {
        SysFillRect(screen, a.x, y', 1, h', rgb);
      }
    } else if a.y == b.y {
      if a.y < 0 || a.y >= SCREEN_H { return; }
      var x, w := if a.x < b.x then a.x else b.x, Abs(b.x - a.x) + 1;
      var x', w' := ClipRun(x, w, SCREEN_W);
      assert forall i | 0 <= i < SCREEN_W :: InRun(i, x', w') <==> Between(i, a.x, b.x);
      if w' > 0 {
        SysFillRect(screen, x', a.y, w', 1, rgb);
      }
    } else {
      ghost var n := DrawGeneral(screen, a, b, rgb);
    }
  }

  predicate InRun(i: int, v: int, n: int) {
    v <= i < v + n
  }

  /** The clipping of a run of n cells from v to [0, limit), as both fast paths do it. */
  method ClipRun(v: int, n: int, limit: int) returns (v': int, n': int)
    requires 0 < n && 0 < limit
    ensures n' > 0 ==> 0 <= v' <= v' + n' <= limit
    ensures forall i | 0 <= i < limit :: InRun(i, v, n) <==> InRun(i, v', n')
  {
    v', n' := v, n;
    if v' < 0 {
      n' := n' + v';
      v' := 0;
    }
    if v' + n' > limit {
      n' := limit - v';
    }
  }

  /** Both routines draw the same picture: a frame-buffer cell that AM_drawFline paints is a
      pixel that sys_drawline draws, and the other way round. */
  lemma SamePixels(a: Point, b: Point, w: nat, h: nat, p: Point)
    requires InWindow(a, w, h) && InWindow(b, w, h) && InWindow(p, w, h)
    ensures Painted(a, b, w, Length(a, b) + 1, p.y * w + p.x) <==> OnLine(a, b, p)
  {
    hide PixelAt;
    if Painted(a, b, w, Length(a, b) + 1, p.y * w + p.x) {
      var k: nat :| k < Length(a, b) + 1 && var q := PixelAt(a, b, k); q.y * w + q.x == p.y * w + p.x;
      LineShape(a, b, k);
      SameCell(PixelAt(a, b, k), p, w);
    }
    if OnLine(a, b, p) {
      var k :| 0 <= k <= Length(a, b) && PixelAt(a, b, k) == p;
      assert k < Length(a, b) + 1;
    }
  }

  lemma SameCell(p: Point, q: Point, w: nat)
    requires 0 <= p.x < w && 0 <= q.x < w && p.y * w + p.x == q.y * w + q.x
    ensures p == q
  {
    if p.y < q.y {
      NextMultiple(p.y, q.y, w);
    } else if q.y < p.y {
      NextMultiple(q.y, p.y, w);
    }
  }
}
