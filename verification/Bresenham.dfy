/**
  Line drawing (`line` in src/framebuffer.rs).

  The reference is the ideal line: one point per step of the longer axis, the other coordinate
  rounded to the nearest pixel, halves away from the start.  The source's loop uses additions
  and comparisons only; it is proved to paint exactly those points, in every octant.
*/
module Bresenham {
  import opened Arithmetic

  function Abs(a: int): nat { if a < 0 then -a else a }

  function Sign(a: int, b: int): int { if a < b then 1 else -1 }

  predicate FitsI32(a: int) { -0x8000_0000 <= a < 0x8000_0000 }

  // ---------- The ideal line ----------

  /** The integer nearest to `k * m / M`, halves upwards. */
  function Nearest(k: nat, m: nat, M: nat): nat
  {
    if M == 0 then 0 else (2 * (k * m) + M) / (2 * M)
  }

  datatype Segment = Segment(x0: int, y0: int, x1: int, y1: int) {
    function Dx(): nat { Abs(x1 - x0) }
    function Dy(): nat { Abs(y1 - y0) }
    function Length(): nat { if Dx() >= Dy() then Dx() else Dy() }

    /** Distance of point `k` from the start along each axis. */
    function XOff(k: nat): nat { if Dx() >= Dy() then k else Nearest(k, Dx(), Dy()) }
    function YOff(k: nat): nat { if Dx() >= Dy() then Nearest(k, Dy(), Dx()) else k }

    /** The signed distance of point `k` from the line, scaled by its length. */
    function Deviation(k: nat): int { YOff(k) * Dx() - XOff(k) * Dy() }

    function XAt(k: nat): int { x0 + Sign(x0, x1) * XOff(k) }
    function YAt(k: nat): int { y0 + Sign(y0, y1) * YOff(k) }
  }

  lemma NearestIs(k: nat, m: nat, M: nat, j: nat)
    requires M > 0
    ensures j == Nearest(k, m, M) <==> 0 < 2 * (j * M - k * m) + M <= 2 * M
  {
    var x := 2 * (k * m) + M;
    if j == Nearest(k, m, M) {
      assert x == (2 * M) * j + x % (2 * M);
      assert (2 * M) * j == 2 * (j * M);
    }
    if 0 < 2 * (j * M - k * m) + M <= 2 * M {
      var r := M - 2 * (j * M - k * m);
      assert x == (2 * M) * j + r by { assert (2 * M) * j == 2 * (j * M); }
      DivModIs(x, 2 * M, j, r);
    }
  }

  /** Along a line no steeper than the diagonal the rounded coordinate advances by at most one. */
  lemma NearestStep(k: nat, m: nat, M: nat)
    requires m <= M && M > 0
    ensures var j := Nearest(k, m, M);
            Nearest(k + 1, m, M) == if 2 * ((j + 1) * M - (k + 1) * m) <= M then j + 1 else j
  {
    var j := Nearest(k, m, M);
    NearestIs(k, m, M, j);
    assert (k + 1) * m == k * m + m && (j + 1) * M == j * M + M;
    NearestIs(k + 1, m, M, if 2 * ((j + 1) * M - (k + 1) * m) <= M then j + 1 else j);
  }

  lemma NearestEnds(m: nat, M: nat)
    ensures Nearest(0, m, M) == 0
    ensures m <= M ==> Nearest(M, m, M) == m
  {
    if M > 0 {
      assert 0 * m == 0 && 0 * M == 0;
      NearestIs(0, m, M, 0);
      assert m * M - M * m == 0;
      NearestIs(M, m, M, m);
    }
  }

  /** Every point is within half a pixel of the ideal line. */
  lemma HalfPixel(s: Segment, k: nat)
    ensures 2 * Abs(s.Deviation(k)) <= s.Length()
  {
    if s.Length() > 0 {
      if s.Dx() >= s.Dy() {
        NearestIs(k, s.Dy(), s.Dx(), s.YOff(k));
      } else {
        NearestIs(k, s.Dx(), s.Dy(), s.XOff(k));
        assert s.Deviation(k) == -(s.XOff(k) * s.Dy() - k * s.Dx());
      }
    }
  }

  /** The line starts and ends on its end points. */
  lemma EndPoints(s: Segment)
    ensures s.XAt(0) == s.x0 && s.YAt(0) == s.y0
    ensures s.XAt(s.Length()) == s.x1 && s.YAt(s.Length()) == s.y1
  {
    NearestEnds(s.Dy(), s.Dx());
    NearestEnds(s.Dx(), s.Dy());
  }

  /** The loop's error term for the next step. */
  function Err(s: Segment, k: nat): int {
    (s.YOff(k) + 1) * s.Dx() - (s.XOff(k) + 1) * s.Dy()
  }

  /** What the two comparisons of one turn decide: each axis moves by one or not at all, at least one moves. */
  lemma Turn(s: Segment, k: nat)
    requires k < s.Length()
    ensures s.XOff(k + 1) == if 2 * Err(s, k) + s.Dy() >= 0 then s.XOff(k) + 1 else s.XOff(k)
    ensures s.YOff(k + 1) == if 2 * Err(s, k) <= s.Dx() then s.YOff(k) + 1 else s.YOff(k)
    ensures s.XOff(k + 1) > s.XOff(k) || s.YOff(k + 1) > s.YOff(k)
  {
    var dx, dy, i, j := s.Dx(), s.Dy(), s.XOff(k), s.YOff(k);
    if dx >= dy {
      NearestStep(k, dy, dx);
      LongAxisMoves(k, dy, dx, j);
    } else {
      NearestStep(k, dx, dy);
      LongAxisMoves(k, dx, dy, i);
    }
  }

  lemma LongAxisMoves(k: nat, m: nat, M: nat, j: nat)
    requires m <= M && M > 0 && j == Nearest(k, m, M)
    ensures 2 * ((j + 1) * M - (k + 1) * m) + m >= 0
  {
    NearestIs(k, m, M, j);
    assert (k + 1) * m == k * m + m && (j + 1) * M == j * M + M;
  }

  lemma OffsetsBounded(s: Segment, k: nat)
    requires k <= s.Length()
    ensures s.XOff(k) <= s.Dx() && s.YOff(k) <= s.Dy()
    decreases s.Length() - k
  {
    if k == s.Length() {
      EndPoints(s);
    } else {
      Turn(s, k);
      OffsetsBounded(s, k + 1);
    }
  }

  /** No point overshoots: all lie in the box of the two end points. */
  lemma InBox(s: Segment, k: nat)
    requires k <= s.Length()
    ensures (if s.x0 < s.x1 then s.x0 else s.x1) <= s.XAt(k) <= (if s.x0 < s.x1 then s.x1 else s.x0)
    ensures (if s.y0 < s.y1 then s.y0 else s.y1) <= s.YAt(k) <= (if s.y0 < s.y1 then s.y1 else s.y0)
  {
    OffsetsBounded(s, k);
  }

  /** Only the last point is the end point. */
  lemma EndOnlyLast(s: Segment, k: nat)
    requires k <= s.Length()
    ensures s.XAt(k) == s.x1 && s.YAt(k) == s.y1 <==> k == s.Length()
  {
    EndPoints(s);
  }

  // ---------- Where the 32-bit arithmetic holds ----------

  /** No intermediate value of turn `k` leaves 32 bits. */
  predicate TurnFits(s: Segment, k: nat) {
    var e := Err(s, k);
    var e' := if 2 * e + s.Dy() >= 0 then e - s.Dy() else e;
    FitsI32(2 * e) && FitsI32(e') && (2 * e <= s.Dx() ==> FitsI32(e' + s.Dx()))
  }

  predicate FitsI32Ends(s: Segment) { FitsI32(s.x0) && FitsI32(s.y0) && FitsI32(s.x1) && FitsI32(s.y1) }

  /** No value the loop computes for this segment leaves 32 bits. */
  predicate Fits(s: Segment) {
    FitsI32Ends(s) && s.Length() < 0x8000_0000 && forall k :: 0 <= k < s.Length() ==> TurnFits(s, k)
  }

  /** The longest axis up to which every segment fits. */
  const MaxLength := 715827883

  lemma NoOverflow(s: Segment, k: nat)
    requires k <= s.Length() <= MaxLength
    ensures TurnFits(s, k)
  {
    HalfPixel(s, k);
    Successor(s.YOff(k), s.Dx());
    Successor(s.XOff(k), s.Dy());
    StraightFits(s, k);
  }

  /** A line along an axis does not deviate. */
  lemma StraightFits(s: Segment, k: nat)
    ensures s.Dx() == 0 || s.Dy() == 0 ==> s.Deviation(k) == 0
  {
    if s.Dy() == 0 && s.Dx() > 0 {
      assert k * 0 == 0 && 0 * s.Dx() == 0;
      NearestIs(k, 0, s.Dx(), 0);
    } else if s.Dx() == 0 && s.Dy() > 0 {
      assert k * 0 == 0 && 0 * s.Dy() == 0;
      NearestIs(k, 0, s.Dy(), 0);
    }
  }

  /** Half-way along a segment that rises by one, twice the error term is three times the length, or nearly. */
  lemma Rise(n: nat) returns (k: nat)
    requires n >= 2
    ensures k < n && 2 * Err(Segment(0, 0, n, 1), k) >= 3 * n - 3
  {
    var s := Segment(0, 0, n, 1);
    k := (n + 1) / 2;
    assert k * 1 == k && 1 * n == n;
    NearestIs(k, 1, n, 1);
    assert s.YOff(k) == 1 && s.XOff(k) == k;
    assert (1 + 1) * n == 2 * n && (k + 1) * 1 == k + 1;
  }

  /** All segments of a length fit if and only if the length is at most `MaxLength`. */
  lemma OverflowExact(n: nat)
    requires n < 0x8000_0000
    ensures (forall s :: FitsI32Ends(s) && s.Length() == n ==> Fits(s)) <==> n <= MaxLength
  {
    if n <= MaxLength {
      forall s, k | FitsI32Ends(s) && s.Length() == n && 0 <= k < n
        ensures TurnFits(s, k)
      {
        NoOverflow(s, k);
      }
    } else {
      var s := Segment(0, 0, n, 1);
      var k := Rise(n);
      assert FitsI32Ends(s) && s.Length() == n && !TurnFits(s, k);
    }
  }

  lemma Successor(a: int, b: int)
    ensures (a + 1) * b == a * b + b
  {
  }

  // ---------- The surface ----------

  type Color = c: int | 0 <= c < 256

  class MemSurface {
    const width: nat
    const height: nat
    const data: array<Color>

    ghost predicate Valid() {
      data.Length == width * height <= 0x1_0000_0000
    }

    lemma InBounds(x: nat, y: nat)
      requires Valid() && x < width && y < height
      ensures 0 <= y * width + x < data.Length
    {
      assert (y + 1) * width <= height * width;
      assert (y + 1) * width == y * width + width;
    }

    lemma Distinct(x: nat, y: nat, u: nat, v: nat)
      requires x < width && u < width && y * width + x == v * width + u
      ensures x == u && y == v
    {
      DivModIs(y * width + x, width, y, x);
      DivModIs(v * width + u, width, v, u);
    }

    function ReadPixel(x: nat, y: nat): Color
      requires Valid()
      reads data
    {
      if x >= width || y >= height then 0
      else
        InBounds(x, y);
        data[y * width + x]
    }

    method PutPixel(x: nat, y: nat, color: Color)
      requires Valid()
      modifies data
      ensures forall u: nat, v: nat :: u < width && v < height ==>
                ReadPixel(u, v) == if u == x && v == y then color else old(ReadPixel(u, v))
    {
      if x >= width || y >= height { return; }
      InBounds(x, y);
      data[y * width + x] := color;
      forall u: nat, v: nat | u < width && v < height
        ensures ReadPixel(u, v) == if u == x && v == y then color else old(ReadPixel(u, v))
      {
        InBounds(u, v);
        if v * width + u == y * width + x {
          Distinct(u, v, x, y);
        }
      }
    }
  }

  /** One of the first `n` points of the line is the pixel (x, y). */
  predicate OnLine(s: Segment, n: nat, x: int, y: int) {
    exists k: nat :: k < n && s.XAt(k) == x && s.YAt(k) == y
  }

  /** Paints the points of the ideal line that lie on the surface, and nothing else. */
  method Line(surface: MemSurface, x0: int, y0: int, x1: int, y1: int, color: Color)
    requires surface.Valid()
    requires Fits(Segment(x0, y0, x1, y1))
    modifies surface.data
    ensures forall u: nat, v: nat :: u < surface.width && v < surface.height ==>
              var s := Segment(x0, y0, x1, y1);
              surface.ReadPixel(u, v) ==
                if OnLine(s, s.Length() + 1, u, v) then color else old(surface.ReadPixel(u, v))
  {
    ghost var s := Segment(x0, y0, x1, y1);
    var dx := Abs(x1 - x0);
    var dy := -(Abs(y1 - y0) as int);
    var sx, sy := Sign(x0, x1), Sign(y0, y1);
    var err := dx + dy;
    var x, y := x0, y0;
    ghost var k: nat := 0;
    EndPoints(s);
    while true
      invariant 0 <= k <= s.Length()
      invariant x == s.XAt(k) && y == s.YAt(k) && err == Err(s, k)
      invariant forall u: nat, v: nat :: u < surface.width && v < surface.height ==>
                  surface.ReadPixel(u, v) == if OnLine(s, k, u, v) then color else old(surface.ReadPixel(u, v))
      decreases s.Length() - k
    {
      OnLineGrows(s, k);
      if x >= 0 && y >= 0 {
        surface.PutPixel(x, y, color);
      }
      EndOnlyLast(s, k);
      if x == x1 && y == y1 {
        break;
      }
      x, y, err := NextPoint(s, k, dx, dy, sx, sy, x, y, err);
      k := k + 1;
    }
  }

  /** The arithmetic of one turn; no intermediate value leaves 32 bits. */
  method NextPoint(ghost s: Segment, ghost k: nat, dx: int, dy: int, sx: int, sy: int, x: int, y: int, err: int)
    returns (x': int, y': int, err': int)
    requires k < s.Length() && Fits(s)
    requires dx == s.Dx() && dy == 0 - s.Dy() && sx == Sign(s.x0, s.x1) && sy == Sign(s.y0, s.y1)
    requires x == s.XAt(k) && y == s.YAt(k) && err == Err(s, k)
    ensures x' == s.XAt(k + 1) && y' == s.YAt(k + 1) && err' == Err(s, k + 1)
  {
    assert TurnFits(s, k);
    NextErr(s, k);
    x', y', err' := x, y, err;
    var e2 := 2 * err;
    assert FitsI32(e2);
    if e2 >= dy {
      err', x' := err' + dy, x' + sx;
    }
    assert FitsI32(err');
    if e2 <= dx {
      err', y' := err' + dx, y' + sy;
    }
    InBox(s, k + 1);
    assert FitsI32(err') && FitsI32(x') && FitsI32(y');
  }

  lemma OnLineGrows(s: Segment, k: nat)
    ensures forall u: int, v: int ::
              OnLine(s, k + 1, u, v) <==> OnLine(s, k, u, v) || (s.XAt(k) == u && s.YAt(k) == v)
  {
    forall u: int, v: int
      ensures OnLine(s, k + 1, u, v) <==> OnLine(s, k, u, v) || (s.XAt(k) == u && s.YAt(k) == v)
    {
      if OnLine(s, k + 1, u, v) {
        var q: nat :| q < k + 1 && s.XAt(q) == u && s.YAt(q) == v;
        assert q < k || q == k;
      }
      if OnLine(s, k, u, v) {
        var q: nat :| q < k && s.XAt(q) == u && s.YAt(q) == v;
        assert q < k + 1;
      }
    }
  }

  /** The loop's increments keep the error term and the position in step. */
  lemma NextErr(s: Segment, k: nat)
    requires k < s.Length()
    ensures var right := 2 * Err(s, k) + s.Dy() >= 0;
            var down := 2 * Err(s, k) <= s.Dx();
            && Err(s, k + 1) == Err(s, k) - (if right then s.Dy() else 0) + (if down then s.Dx() else 0)
            && s.XAt(k + 1) == s.XAt(k) + (if right then Sign(s.x0, s.x1) else 0)
            && s.YAt(k + 1) == s.YAt(k) + (if down then Sign(s.y0, s.y1) else 0)
  {
    Turn(s, k);
    Successor(s.XOff(k) + 1, s.Dy());
    Successor(s.YOff(k) + 1, s.Dx());
    assert Sign(s.x0, s.x1) * (s.XOff(k) + 1) == Sign(s.x0, s.x1) * s.XOff(k) + Sign(s.x0, s.x1);
    assert Sign(s.y0, s.y1) * (s.YOff(k) + 1) == Sign(s.y0, s.y1) * s.YOff(k) + Sign(s.y0, s.y1);
  }
}
