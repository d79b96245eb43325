/** The screen melt of apps/doom/f_wipe.c: column-major source images, per-column offsets, and
    the invariant that ties the screen to them over a whole run. */
module MeltModel {
  import opened Common

  type Pixels = seq<int>  // one short, that is two screen bytes, per element

  /** Element (major, minor) of an image stored `stride` elements per major index. */
  function Cell(s: Pixels, stride: nat, major: nat, minor: nat): int {
    var k := major * stride + minor;
    if k < |s| then s[k] else 0
  }

  lemma CellInside(stride: nat, count: nat, major: nat, minor: nat)
    requires major < count && minor < stride
    ensures major * stride + minor < count * stride
  {
    assert (major + 1) * stride <= count * stride by { Scale(major + 1, count, stride); }
  }

  /** Distinct coordinates are distinct elements. */
  lemma CellsDiffer(stride: nat, a: nat, b: nat, c: nat, d: nat)
    requires b < stride && d < stride && a * stride + b == c * stride + d
    ensures a == c && b == d
  {
    if a < c {
      Scale(a + 1, c, stride);
    } else if c < a {
      Scale(c + 1, a, stride);
    }
  }

  lemma CellUpdate(s: Pixels, stride: nat, count: nat, a: nat, b: nat, v: int, c: nat, d: nat)
    requires count * stride <= |s| && a < count && b < stride && c < count && d < stride
    ensures a * stride + b < |s|
    ensures Cell(s[a * stride + b := v], stride, c, d) == if a == c && b == d then v else Cell(s, stride, c, d)
  {
    CellInside(stride, count, a, b);
    CellInside(stride, count, c, d);
    if a * stride + b == c * stride + d {
      CellsDiffer(stride, a, b, c, d);
    }
  }

  /** t is s with rows and columns exchanged. */
  ghost predicate Transposed(s: Pixels, t: Pixels, width: nat, height: nat) {
    forall x, y | 0 <= x < width && 0 <= y < height :: Cell(t, height, x, y) == Cell(s, width, y, x)
  }

  lemma CellAt(s: Pixels, stride: nat, major: nat, minor: nat)
    requires major * stride + minor < |s|
    ensures Cell(s, stride, major, minor) == s[major * stride + minor]
  {
  }

  /** One store of the transposition: dest[x * height + y] = image[y * width + x]. */
  method StoreCell(dest: array<int>, stride: nat, ghost count: nat, major: nat, minor: nat, v: int)
    requires count * stride == dest.Length && major < count && minor < stride
    modifies dest
    ensures forall c, d | 0 <= c < count && 0 <= d < stride ::
              Cell(dest[..], stride, c, d) == if c == major && d == minor then v else Cell(old(dest[..]), stride, c, d)
  {
    CellInside(stride, count, major, minor);
    dest[major * stride + minor] := v;
    assert dest[..] == old(dest[..])[major * stride + minor := v];
    forall c, d | 0 <= c < count && 0 <= d < stride
      ensures Cell(dest[..], stride, c, d) == if c == major && d == minor then v else Cell(old(dest[..]), stride, c, d)
    {
      CellUpdate(old(dest[..]), stride, count, major, minor, v, c, d);
    }
  }

  method CopyImage(to: array<int>, from: array<int>)
    requires to != from && to.Length == from.Length
    modifies to
    ensures to[..] == from[..]
  {
    for k := 0 to to.Length
      invariant to[..k] == from[..k]
    {
      to[k] := from[k];
    }
  }

  /** Rewrites an image in column-major order, in place. */
  method ColMajorXform(image: array<int>, width: nat, height: nat)
    requires image.Length == width * height
    modifies image
    ensures Transposed(old(image[..]), image[..], width, height)
  {
    hide Cell;
    var dest := new int[width * height];
    for y := 0 to height
      invariant image[..] == old(image[..])
      invariant forall x, r | 0 <= x < width && 0 <= r < y ::
                  Cell(dest[..], height, x, r) == Cell(old(image[..]), width, r, x)
    {
      for x := 0 to width
        invariant image[..] == old(image[..])
        invariant forall c, r | 0 <= c < width && 0 <= r < y ::
                    Cell(dest[..], height, c, r) == Cell(old(image[..]), width, r, c)
        invariant forall c | 0 <= c < x :: Cell(dest[..], height, c, y) == Cell(old(image[..]), width, y, c)
      {
        CellInside(width, height, y, x);
        CellAt(image[..], width, y, x);
        StoreCell(dest, height, width, x, y, image[y * width + x]);
      }
    }
    CopyImage(image, dest);
  }

  /** The first screen row that still shows the start image in a column with offset y. */
  function Edge(y: int): nat {
    if y < 0 then 0 else y
  }

  /** Column i of the screen shows the end image above its edge and, below it, the start image
      moved down by the edge. `start` and `end` are column-major, `scr` row-major. */
  ghost predicate Shows(scr: Pixels, start: Pixels, end: Pixels, columns: nat, height: nat, i: nat, y: int) {
    forall r | 0 <= r < height ::
      Cell(scr, columns, r, i) == if r < Edge(y) then Cell(end, height, i, r) else Cell(start, height, i, r - Edge(y))
  }

  /** One tick of one column. */
  function Advance(y: int, height: nat): int {
    if y < 0 then y + 1
    else if y < height then
      var dy := if y < 16 then y + 1 else 8;
      if y + dy >= height then height else y + dy
    else y
  }

  function AdvanceN(y: int, height: nat, ticks: nat): int {
    if ticks == 0 then y else Advance(AdvanceN(y, height, ticks - 1), height)
  }

  /** How far a column has fallen n ticks after it began to: it is faster and faster for five ticks, and
      then falls eight rows a tick. A negative n are ticks still to wait. */
  function FallAfter(n: int): int {
    if n <= 0 then n
    else if n == 1 then 1
    else if n == 2 then 3
    else if n == 3 then 7
    else if n == 4 then 15
    else 31 + 8 * (n - 5)
  }

  /** The motion of a column from any starting offset. */
  lemma {:induction false} Acceleration(y: int, height: nat, ticks: nat)
    requires -15 <= y <= 0
    ensures AdvanceN(y, height, ticks) == Min(FallAfter(y + ticks), height)
  {
    if ticks > 0 {
      Acceleration(y, height, ticks - 1);
    }
  }

  /** An upper bound on the ticks a column still needs. */
  function TicksLeft(y: int, height: nat): nat
    requires y <= height
  {
    if y == height then 0
    else if y < 0 then -y + 5 + (height + 7) / 8
    else if y < 16 then
      (if y == 0 then 5 else if y < 3 then 4 else if y < 7 then 3 else if y < 15 then 2 else 1) + (height + 7) / 8
    else (height - y + 7) / 8
  }

  lemma AdvanceStep(y: int, height: nat)
    requires -15 <= y <= height
    ensures y <= Advance(y, height) <= height
    ensures Advance(y, height) == y <==> y == height
    ensures y < height ==> TicksLeft(Advance(y, height), height) < TicksLeft(y, height)
  {
  }

  /** Offsets only grow, never pass the bottom, and reach it within the bound. */
  lemma {:induction false} MeltEnds(y: int, height: nat, ticks: nat)
    requires -15 <= y <= height
    ensures y <= AdvanceN(y, height, ticks) <= height
    ensures ticks >= TicksLeft(y, height) ==> AdvanceN(y, height, ticks) == height
    ensures TicksLeft(AdvanceN(y, height, ticks), height) <= TicksLeft(y, height)
    ensures AdvanceN(y, height, ticks) < height ==>
            TicksLeft(AdvanceN(y, height, ticks), height) + ticks <= TicksLeft(y, height)
  {
    if ticks > 0 {
      MeltEnds(y, height, ticks - 1);
      AdvanceStep(AdvanceN(y, height, ticks - 1), height);
    }
  }

  /** Starting offsets lie in [-15, 0], so every column is down after 20 + ceil(height / 8) ticks. */
  lemma MeltBound(y: int, height: nat)
    requires -15 <= y <= 0
    ensures TicksLeft(y, height) <= 20 + (height + 7) / 8
  {
  }

  lemma {:induction false} AdvanceNAdd(y: int, height: nat, a: nat, b: nat)
    ensures AdvanceN(AdvanceN(y, height, a), height, b) == AdvanceN(y, height, a + b)
  {
    if b > 0 {
      AdvanceNAdd(y, height, a, b - 1);
    }
  }

  /** Row-major element (row + k, column) is k strides after element (row, column). */
  lemma RowsBelow(stride: nat, row: nat, column: nat, k: nat)
    ensures (row + k) * stride + column == row * stride + column + k * stride
  {
  }

  /** One inner loop of the melt: `count` pixels of a column-major image, from `from` on, go down
      column `column` of the screen, starting at row `row`. */
  method CopyDown(src: array<int>, from: nat, scr: array<int>, columns: nat, ghost height: nat, row: nat,
                  column: nat, count: nat)
    requires src != scr && scr.Length == columns * height
    requires column < columns && row + count <= height && from + count <= src.Length
    modifies scr
    ensures forall r, c | 0 <= r < height && 0 <= c < columns ::
              Cell(scr[..], columns, r, c) ==
              if c == column && row <= r < row + count then src[from + (r - row)] else Cell(old(scr[..]), columns, r, c)
  {
    hide Cell;
    var idx, s, j := 0, from, count;
    while j > 0
      invariant 0 <= j <= count && idx == (count - j) * columns && s == from + (count - j)
      invariant forall r, c | 0 <= r < height && 0 <= c < columns ::
                  Cell(scr[..], columns, r, c) ==
                  if c == column && row <= r < row + (count - j) then src[from + (r - row)]
                      else Cell(old(scr[..]), columns, r, c)
    {
      ghost var k := count - j;
      RowsBelow(columns, row, column, k);
      CellInside(columns, height, row + k, column);
      ghost var before := scr[..];
      StoreAt(scr, row * columns + column + idx, columns, height, row + k, column, src[s]);
      NextRow(columns, k);
      idx, s, j := idx + columns, s + 1, j - 1;
    }
  }

  lemma NextRow(columns: nat, k: nat)
    ensures k * columns + columns == (k + 1) * columns
  {
  }

  /** A store through a moving pointer, which stands on element (major, minor). */
  method StoreAt(dest: array<int>, at: nat, ghost stride: nat, ghost count: nat, ghost major: nat,
                 ghost minor: nat, v: int)
    requires count * stride == dest.Length && major < count && minor < stride && at == major * stride + minor
    modifies dest
    ensures forall c, d | 0 <= c < count && 0 <= d < stride ::
              Cell(dest[..], stride, c, d) == if c == major && d == minor then v else Cell(old(dest[..]), stride, c, d)
  {
    CellInside(stride, count, major, minor);
    dest[at] := v;
    assert dest[..] == old(dest[..])[at := v];
    forall c, d | 0 <= c < count && 0 <= d < stride
      ensures Cell(dest[..], stride, c, d) == if c == major && d == minor then v else Cell(old(dest[..]), stride, c, d)
    {
      CellUpdate(old(dest[..]), stride, count, major, minor, v, c, d);
    }
  }

  /** Two images with the same cells are the same image. */
  lemma SameCells(s: Pixels, t: Pixels, stride: nat, count: nat)
    requires |s| == |t| == count * stride
    requires forall r, c | 0 <= r < count && 0 <= c < stride :: Cell(s, stride, r, c) == Cell(t, stride, r, c)
    ensures s == t
  {
    forall k | 0 <= k < |s| ensures s[k] == t[k] {
      CellOf(stride, count, k);
      CellAt(s, stride, k / stride, k % stride);
      CellAt(t, stride, k / stride, k % stride);
    }
  }

  lemma CellOf(stride: nat, count: nat, k: nat)
    requires k < count * stride
    ensures stride > 0 && k / stride < count && k / stride * stride + k % stride == k
  {
    if k / stride >= count {
      Scale(count, k / stride, stride);
    }
  }

  /** With every column at the bottom the screen is the row-major end image. */
  lemma AllDown(scr: Pixels, start: Pixels, end: Pixels, target: Pixels, columns: nat, height: nat)
    requires |scr| == |target| == columns * height
    requires Transposed(target, end, columns, height)
    requires forall i | 0 <= i < columns :: Shows(scr, start, end, columns, height, i, height)
    ensures scr == target
  {
    hide Cell;
    forall r, c | 0 <= r < height && 0 <= c < columns
      ensures Cell(scr, columns, r, c) == Cell(target, columns, r, c)
    {
      assert Shows(scr, start, end, columns, height, c, height);
    }
    SameCells(scr, target, columns, height);
  }

  /** M_Random: some byte. */
  method Random() returns (m: int)
    ensures 0 <= m < 256
  {
    m :| 0 <= m < 256;
  }

  /** Offset i is at most one away from its left neighbour. */
  ghost predicate CloseAt(y: seq<int>, i: nat)
    requires 1 <= i < |y|
  {
    -1 <= y[i] - y[i - 1] <= 1
  }

  /** The starting offsets: a random walk inside [-15, 0]. */
  method InitOffsets(y: array<int>)
    requires y.Length > 0
    modifies y
    ensures forall i | 0 <= i < y.Length :: -15 <= y[i] <= 0
    ensures forall i | 1 <= i < y.Length :: CloseAt(y[..], i)
  {
    var m := Random();
    y[0] := -(m % 16);
    for i := 1 to y.Length
      invariant forall k | 0 <= k < i :: -15 <= y[k] <= 0
      invariant forall k | 1 <= k < i :: CloseAt(y[..], k)
    {
      ghost var was := y[..];
      m := Random();
      var r := m % 3 - 1;
      y[i] := y[i - 1] + r;
      if y[i] > 0 {
        y[i] := 0;
      } else if y[i] == -16 {
        y[i] := -15;
      }
      forall k | 1 <= k < i ensures CloseAt(y[..], k) {
        assert CloseAt(was, k) && y[..][k] == was[k] && y[..][k - 1] == was[k - 1];
      }
    }
  }

  /** The wipe in progress: f_wipe.c's static pointers and offsets. */
  class Melt {
    const columns: nat       // width / 2: pixels move in pairs
    const height: nat
    const start: array<int>  // wipe_scr_start
    const end: array<int>    // wipe_scr_end
    const scr: array<int>    // wipe_scr, the frame buffer
    const y: array<int>      // width entries, of which the first half is used
    ghost var target: Pixels // the end image as it was handed over, row-major

    constructor (columns: nat, height: nat, start: array<int>, end: array<int>, scr: array<int>)
      requires columns > 0 && start != end && start != scr && end != scr
      requires start.Length == end.Length == scr.Length == columns * height
      ensures Shaped() && fresh(y)
      ensures this.columns == columns && this.height == height && this.start == start && this.end == end
              && this.scr == scr
    {
      this.columns, this.height, this.start, this.end, this.scr := columns, height, start, end, scr;
      y := new int[2 * columns];
      target := [];
    }

    ghost predicate Shaped() {
      && columns > 0 && y.Length == 2 * columns
      && start.Length == end.Length == scr.Length == columns * height
      && start != end && start != scr && end != scr && y != start && y != end && y != scr
    }

    /** The melt invariant. */
    ghost predicate Melting()
      reads this, start, end, scr, y
    {
      && Shaped() && |target| == columns * height && Transposed(target, end[..], columns, height)
      && (forall i | 0 <= i < columns :: -15 <= y[i] <= height)
      && (forall i | 0 <= i < columns :: Shows(scr[..], start[..], end[..], columns, height, i, y[i]))
    }

    /** wipe_initMelt: the screen becomes the start image, both images turn column-major, and the
        offsets become a random walk with steps of at most one inside [-15, 0]. */
    method InitMelt()
      requires Shaped()
      modifies this, start, end, scr, y
      ensures Melting()
      ensures scr[..] == old(start[..]) && target == old(end[..])
      ensures forall i | 0 <= i < y.Length :: -15 <= y[i] <= 0
      ensures forall i | 1 <= i < y.Length :: CloseAt(y[..], i)
    {
      target := end[..];
      CopyImage(scr, start);
      ColMajorXform(start, columns, height);
      ColMajorXform(end, columns, height);
      InitOffsets(y);
      forall i | 0 <= i < columns ensures Shows(scr[..], start[..], end[..], columns, height, i, y[i]) {
        hide Cell;
      }
    }

    /** The body of wipe_doMelt's loop for column i. */
    method MeltColumn(i: nat, done: bool) returns (stillDone: bool)
      requires Melting() && i < columns
      modifies scr, y
      ensures Melting()
      ensures y[..] == old(y[..])[i := Advance(old(y[i]), height)]
      ensures stillDone == (done && old(y[i]) == height)
    {
      hide Cell, Transposed, Shows, Fallen;
      stillDone := done;
      assert Shows(scr[..], start[..], end[..], columns, height, i, y[i]);
      if y[i] < 0 {
        y[i] := y[i] + 1;
        SameEdge(scr[..], start[..], end[..], columns, height, i, y[i] - 1, y[i]);
        stillDone := false;
      } else if y[i] < height {
        var dy := if y[i] < 16 then y[i] + 1 else 8;
        if y[i] + dy >= height {
          dy := height - y[i];
        }
        Fall(scr, start, end, columns, height, i, y[i], dy);
        forall c | 0 <= c < columns
          ensures Shows(scr[..], start[..], end[..], columns, height, c, if c == i then y[i] + dy else y[c])
        {
          FallenShows(old(scr[..]), scr[..], start[..], end[..], columns, height, i, y[i], dy, c, y[c]);
        }
        y[i] := y[i] + dy;
        stillDone := false;
      }
    }

    /** wipe_doMelt. */
    method DoMelt(ticks: nat) returns (done: bool)
      requires Melting()
      modifies scr, y
      ensures Melting()
      ensures forall i | 0 <= i < columns :: y[i] == AdvanceN(old(y[i]), height, ticks)
      ensures done <==> ticks == 0 || forall i | 0 <= i < columns :: old(y[i]) == height
      ensures done && ticks > 0 ==> scr[..] == target
    {
      hide Transposed, Shows, Advance;
      done := true;
      var left := ticks;
      while left > 0
        invariant 0 <= left <= ticks
        invariant Melting()
        invariant forall i | 0 <= i < columns :: y[i] == AdvanceN(old(y[i]), height, ticks - left)
        invariant done <==> left == ticks || forall i | 0 <= i < columns :: old(y[i]) == height
      {
        forall i | 0 <= i < columns ensures old(y[i]) == height ==> y[i] == height {
          MeltEnds(old(y[i]), height, ticks - left);
        }
        done := Tick(done);
        left := left - 1;
      }
      if done && ticks > 0 {
        forall i | 0 <= i < columns ensures Shows(scr[..], start[..], end[..], columns, height, i, height) {
          MeltEnds(old(y[i]), height, ticks);
          assert Shows(scr[..], start[..], end[..], columns, height, i, y[i]);
        }
        AllDown(scr[..], start[..], end[..], target, columns, height);
      }
    }

    /** The wipe loop of D_Display, with any clock: after at most 21 + ceil(height / 8) calls the
        wipe is over and the screen is the end image. */
    method Run() returns (calls: nat)
      requires Shaped()
      modifies this, start, end, scr, y
      ensures scr[..] == old(end[..])
      ensures 1 <= calls <= 21 + (height + 7) / 8
    {
      hide Transposed, Shows, Advance, TicksLeft;
      InitMelt();
      ghost var bound := 20 + (height + 7) / 8;
      ghost var y0 := y[..];
      ghost var total := 0;
      calls := 0;
      var done := false;
      while !done
        invariant Melting() && target == old(end[..]) && |y0| == y.Length
        invariant forall i | 0 <= i < columns :: -15 <= y0[i] <= 0 && y[i] == AdvanceN(y0[i], height, total)
        invariant calls <= total && (if done then 1 <= calls <= bound + 1 else calls <= bound)
        invariant done ==> scr[..] == target
        decreases if done then 0 else if total >= bound then 1 else 1 + bound - total
      {
        var ticks: nat :| ticks > 0;
        forall i | 0 <= i < columns
          ensures AdvanceN(AdvanceN(y0[i], height, total), height, ticks) == AdvanceN(y0[i], height, total + ticks)
          ensures total >= bound ==> y[i] == height
        {
          AdvanceNAdd(y0[i], height, total, ticks);
          MeltEnds(y0[i], height, total);
          MeltBound(y0[i], height);
        }
        done := DoMelt(ticks);
        total, calls := total + ticks, calls + 1;
      }
    }

    /** One tick: every column once. */
    method Tick(done: bool) returns (stillDone: bool)
      requires Melting()
      modifies scr, y
      ensures Melting()
      ensures forall i | 0 <= i < columns :: y[i] == Advance(old(y[i]), height)
      ensures stillDone <==> done && forall i | 0 <= i < columns :: old(y[i]) == height
    {
      hide Cell, Transposed, Shows, Advance;
      stillDone := done;
      for i := 0 to columns
        invariant Melting()
        invariant forall k | 0 <= k < i :: y[k] == Advance(old(y[k]), height)
        invariant forall k | i <= k < columns :: y[k] == old(y[k])
        invariant stillDone <==> done && forall k | 0 <= k < i :: old(y[k]) == height
      {
        stillDone := MeltColumn(i, stillDone);
      }
    }
  }

  /** A column that has not started to move shows the same picture. */
  lemma SameEdge(scr: Pixels, start: Pixels, end: Pixels, columns: nat, height: nat, i: nat, y: int, y': int)
    requires Edge(y) == Edge(y') && Shows(scr, start, end, columns, height, i, y)
    ensures Shows(scr, start, end, columns, height, i, y')
  {
  }

  /** What the two copies of one step leave on the screen. */
  ghost predicate Fallen(scr: Pixels, scr': Pixels, start: Pixels, end: Pixels, columns: nat, height: nat,
                         i: nat, y: nat, dy: nat) {
    forall r, c | 0 <= r < height && 0 <= c < columns ::
      Cell(scr', columns, r, c) ==
      if c != i || r < y then Cell(scr, columns, r, c)
      else if r < y + dy then Cell(end, height, i, r)
      else Cell(start, height, i, r - (y + dy))
  }

  lemma FallenShows(scr: Pixels, scr': Pixels, start: Pixels, end: Pixels, columns: nat, height: nat, i: nat,
                    y: nat, dy: nat, c: nat, yc: int)
    requires c < columns && Fallen(scr, scr', start, end, columns, height, i, y, dy)
    requires Shows(scr, start, end, columns, height, c, yc)
    ensures c != i ==> Shows(scr', start, end, columns, height, c, yc)
    ensures c == i && yc == y ==> Shows(scr', start, end, columns, height, i, y + dy)
  {
    hide Cell;
  }

  /** Both copies of one step: `dy` more rows of the end image, and the start image below them. */
  method Fall(scr: array<int>, start: array<int>, end: array<int>, columns: nat, height: nat, i: nat, y: nat, dy: nat)
    requires scr != start && scr != end && scr.Length == start.Length == end.Length == columns * height
    requires i < columns && y + dy <= height
    modifies scr
    ensures Fallen(old(scr[..]), scr[..], start[..], end[..], columns, height, i, y, dy)
  {
    hide Cell;
    Fits(columns, height, i);
    CopyDown(end, i * height + y, scr, columns, height, y, i, dy);
    CopyDown(start, i * height, scr, columns, height, y + dy, i, height - (y + dy));
    forall r | 0 <= r < height
      ensures Cell(end[..], height, i, r) == end[i * height + r]
              && Cell(start[..], height, i, r) == start[i * height + r]
    {
      CellAt(end[..], height, i, r);
      CellAt(start[..], height, i, r);
    }
  }

  lemma Fits(columns: nat, height: nat, i: nat)
    requires i < columns
    ensures i * height + height <= columns * height
  {
    Scale(i + 1, columns, height);
  }
}
