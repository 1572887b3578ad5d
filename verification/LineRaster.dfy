/** The line rasteriser: one unbounded loop, seen as the trace of pixels it writes. */
module LineRaster {

  import opened Arithmetic
  import opened Common
  import opened Words

  predicate Int32(x: int) {
    -0x8000_0000 <= x < 0x8000_0000
  }

  datatype Pixel = Pixel(x: int, y: int)

  function Sign(x: int): (r: int)
    ensures r * Abs(x) == x
  {
    if x < 0 then -1 else 1
  }

  /** Twice the signed distance, in units of 1/max, of step (i, j) from the ideal line over a box of a by b. */
  function Offset(a: int, b: int, i: int, j: int): int {
    2 * (a * j - b * i)
  }

  /** Step (i, j) is the pixel nearest the ideal line; exact halves go to the smaller minor coordinate. */
  ghost predicate Nearest(a: int, b: int, i: int, j: int) {
    if a > b then -a <= Offset(a, b, i, j) < a
    else if a < b then -b < Offset(a, b, i, j) <= b
    else i == j
  }

  /** Pixel number k of the line from (x0, y0) to (x1, y1): k steps along the longer axis, the nearest along the
      other. */
  ghost predicate OnLine(x0: int, y0: int, x1: int, y1: int, k: int, p: Pixel) {
    exists i: nat, j: nat :: At(x0, y0, x1, y1, k, i, j, p)
  }

  ghost predicate At(x0: int, y0: int, x1: int, y1: int, k: int, i: int, j: int, p: Pixel) {
    var a, b := Abs(x1 - x0), Abs(y1 - y0);
    && i <= a && j <= b && k == (if a >= b then i else j) && Nearest(a, b, i, j)
    && p == Pixel(Along(x0, Sign(x1 - x0), i), Along(y0, Sign(y1 - y0), j))
  }

  lemma MulAtLeast(a: int, m: int)
    requires a > 0 && m >= 1
    ensures a * m >= a
  {
    assert a * m == a + a * (m - 1);
  }

  lemma OffsetSteps(a: int, b: int, i: int, j: int)
    ensures Offset(a, b, i + 1, j) == Offset(a, b, i, j) - 2 * b
    ensures Offset(a, b, i, j + 1) == Offset(a, b, i, j) + 2 * a
    ensures Offset(a, b, i + 1, j + 1) == Offset(a, b, i, j) - 2 * b + 2 * a
  {
    assert b * (i + 1) == b * i + b && a * (j + 1) == a * j + a;
  }

  /** Two steps with the same i: their offsets differ by a multiple of 2 a. */
  lemma OffsetApart(a: int, b: int, i: int, j: int, m: int)
    ensures Offset(a, b, i, j) - Offset(a, b, i, m) == 2 * (a * (j - m))
  {
    assert a * (j - m) == a * j - a * m;
  }

  lemma OffsetAcross(a: int, b: int, i: int, m: int, j: int)
    ensures Offset(a, b, m, j) - Offset(a, b, i, j) == 2 * (b * (i - m))
  {
    assert b * (i - m) == b * i - b * m;
  }

  lemma Close(a: int, d: int)
    requires a > 0 && -a < a * d < a
    ensures d == 0
  {
    if d > 0 { MulAtLeast(a, d); } else if d < 0 { assert a * -d == -(a * d); MulAtLeast(a, -d); }
  }

  /** The number of steps along the longer axis fixes the pixel. */
  lemma NearestUnique(a: int, b: int, i: int, j: int, i1: int, j1: int)
    requires a >= 0 && b >= 0 && Nearest(a, b, i, j) && Nearest(a, b, i1, j1)
    requires if a >= b then i == i1 else j == j1
    ensures i == i1 && j == j1
  {
    if a > b {
      OffsetApart(a, b, i, j, j1);
      Close(a, j - j1);
    } else if a < b {
      OffsetAcross(a, b, i, i1, j);
      Close(b, i - i1);
    }
  }

  /** The corner itself is the nearest pixel at the end of the longer axis. */
  lemma CornerNearest(a: int, b: int)
    requires a >= 0 && b >= 0
    ensures Offset(a, b, a, b) == 0 && (a == b || Nearest(a, b, a, b)) && Offset(a, b, 0, 0) == 0
  {
    assert a * b == b * a;
  }

  /** At the end of the longer axis the loop stands on the end point. */
  lemma EndsOnCorner(a: int, b: int, i: int, j: int)
    requires a >= 0 && b >= 0 && Nearest(a, b, i, j) && (if a >= b then i == a else j == b)
    ensures i == a && j == b
  {
    if a != b {
      CornerNearest(a, b);
      NearestUnique(a, b, i, j, a, b);
    }
  }

  lemma Regroup(a: int, b: int, i: int, j: int)
    ensures a * j - b * i == a * (j - b) + b * (a - i)
  {
    assert a * (j - b) == a * j - a * b && b * (a - i) == b * a - b * i;
  }

  lemma MulNonNegative(x: int, y: int)
    requires x >= 0 && y >= 0
    ensures x * y >= 0
  {}

  /** Before the end of the longer axis the other axis is not overshot. */
  lemma StaysInside(a: int, b: int, i: int, j: int)
    requires 0 <= i && 0 <= j && a >= 0 && b >= 0 && Nearest(a, b, i, j) && (if a >= b then i <= a else j <= b)
    ensures i <= a && j <= b
  {
    Regroup(a, b, i, j);
    if a > b && j > b {
      MulAtLeast(a, j - b);
      MulNonNegative(b, a - i);
    } else if a < b && i > a {
      assert b * (a - i) == -(b * (i - a)) && a * (j - b) == -(a * (b - j));
      MulAtLeast(b, i - a);
      MulNonNegative(a, b - j);
    }
  }

  /** Twice the error variable at step (i, j). */
  function DoubledError(a: int, b: int, i: int, j: int): int {
    Offset(a, b, i, j) + 2 * a - 2 * b
  }

  predicate StepsX(a: int, b: int, i: int, j: int) {
    DoubledError(a, b, i, j) > -b
  }

  predicate StepsY(a: int, b: int, i: int, j: int) {
    DoubledError(a, b, i, j) < a
  }

  function NextI(a: int, b: int, i: int, j: int): int {
    if StepsX(a, b, i, j) then i + 1 else i
  }

  function NextJ(a: int, b: int, i: int, j: int): int {
    if StepsY(a, b, i, j) then j + 1 else j
  }

  /** One round moves one step along the longer axis and to the nearest pixel again. */
  lemma RoundStaysNearest(a: int, b: int, i: int, j: int)
    requires a >= 0 && b >= 0 && a + b > 0 && Nearest(a, b, i, j)
    ensures Nearest(a, b, NextI(a, b, i, j), NextJ(a, b, i, j))
    ensures a >= b ==> StepsX(a, b, i, j)
    ensures a <= b ==> StepsY(a, b, i, j)
  {
    OffsetSteps(a, b, i, j);
    if a == b { assert a * j == b * i; }
  }

  /** The error variable follows the steps. */
  lemma ErrorFollows(a: int, b: int, i: int, j: int)
    ensures DoubledError(a, b, NextI(a, b, i, j), NextJ(a, b, i, j)) == DoubledError(a, b, i, j)
      - (if StepsX(a, b, i, j) then 2 * b else 0) + (if StepsY(a, b, i, j) then 2 * a else 0)
  {
    OffsetSteps(a, b, i, j);
  }

  /** The loop after n pixels: at step n along the longer axis, at the nearest pixel. */
  ghost predicate Walking(a: int, b: int, i: int, j: int, n: int) {
    0 <= i <= a && 0 <= j <= b && Nearest(a, b, i, j) && n == if a >= b then i else j
  }

  lemma WalkStarts(a: int, b: int)
    requires a >= 0 && b >= 0
    ensures Walking(a, b, 0, 0, 0) && DoubledError(a, b, 0, 0) == 2 * (a - b)
  {
    CornerNearest(a, b);
  }

  lemma WalkGoesOn(a: int, b: int, i: int, j: int, n: int)
    requires Walking(a, b, i, j, n) && n < Max(a, b)
    ensures Walking(a, b, NextI(a, b, i, j), NextJ(a, b, i, j), n + 1)
  {
    RoundStaysNearest(a, b, i, j);
    StaysInside(a, b, NextI(a, b, i, j), NextJ(a, b, i, j));
  }

  /** The loop is on the end point exactly after all steps of the longer axis. */
  lemma WalkEnds(a: int, b: int, i: int, j: int, n: int)
    requires Walking(a, b, i, j, n)
    ensures i == a && j == b <==> n == Max(a, b)
  {
    if n == Max(a, b) { EndsOnCorner(a, b, i, j); }
  }

  /** Half a pixel: along the minor axis, the ideal line is at most half a unit away. */
  lemma HalfPixel(a: int, b: int, i: int, j: int)
    requires a >= 0 && b >= 0 && Nearest(a, b, i, j)
    ensures 2 * Abs(a * j - b * i) <= Max(a, b)
  {
    if a == b { assert a * j == b * i; }
  }

  /** The nearest pixel as a quotient: exact halves go to the smaller minor coordinate. */
  lemma NearestIff(a: int, b: int, i: int, j: int)
    requires a >= 0 && b >= 0
    ensures a > b ==> (Nearest(a, b, i, j) <==> j == (2 * b * i + a - 1) / (2 * a))
    ensures a < b ==> (Nearest(a, b, i, j) <==> i == (2 * a * j + b - 1) / (2 * b))
    ensures a == b ==> (Nearest(a, b, i, j) <==> i == j)
  {
    if a > b {
      OffsetParts(a, j, b, i);
      QuotientIff(a, b * i, j);
    } else if a < b {
      OffsetParts(a, j, b, i);
      QuotientIff(b, a * j, i);
    }
  }

  lemma OffsetParts(a: int, j: int, b: int, i: int)
    ensures Offset(a, b, i, j) == 2 * (a * j) - 2 * (b * i)
    ensures 2 * b * i == 2 * (b * i) && 2 * a * j == 2 * (a * j)
  {
    MulAssociative(2, b, i);
    MulAssociative(2, a, j);
  }

  lemma QuotientIff(d: int, m: int, q: int)
    requires d > 0
    ensures -d <= 2 * (d * q) - 2 * m < d <==> q == (2 * m + d - 1) / (2 * d)
  {
    var n := 2 * m + d - 1;
    DivModDefinition(n, 2 * d);
    assert q * (2 * d) == 2 * (d * q);
    if -d <= 2 * (d * q) - 2 * m < d { DivModUnique(n, 2 * d, q, n - q * (2 * d)); }
  }

  /** No 32-bit value of the round overflows. */
  lemma RoundFits(a: int, b: int, i: int, j: int)
    requires 0 <= a <= 715_827_882 && 0 <= b <= 715_827_882 && Nearest(a, b, i, j)
    ensures Int32(DoubledError(a, b, i, j))
    ensures Int32(DoubledError(a, b, i, j) / 2 - b) && Int32(DoubledError(a, b, i, j) / 2 + a)
  {
    HalfPixel(a, b, i, j);
  }

  /** Drawn from the other end the same pixel is chosen exactly when the line does not pass half way between two. */
  lemma ReversedIff(a: int, b: int, i: int, j: int)
    requires a >= 0 && b >= 0 && Nearest(a, b, i, j)
    ensures Nearest(a, b, a - i, b - j) <==> a == b || Abs(Offset(a, b, i, j)) != Max(a, b)
  {
    assert a * (b - j) == a * b - a * j && b * (a - i) == b * a - b * i;
    assert Offset(a, b, a - i, b - j) == -Offset(a, b, i, j);
  }

  /** A coordinate i steps from its start towards its end, l away. */
  function Along(start: int, sign: int, i: int): int {
    start + sign * i
  }

  lemma AlongSteps(x0: int, x1: int, i: int)
    requires 0 <= i <= Abs(x1 - x0)
    ensures Along(x0, Sign(x1 - x0), i) == x1 <==> i == Abs(x1 - x0)
    ensures Along(x0, Sign(x1 - x0), i + 1) == Along(x0, Sign(x1 - x0), i) + Sign(x1 - x0)
    ensures Int32(x0) && Int32(x1) ==> Int32(Along(x0, Sign(x1 - x0), i))
  {}

  /** Every pixel of the trace is the one its number asks for. */
  ghost predicate AllOnLine(x0: int, y0: int, x1: int, y1: int, trace: seq<Pixel>) {
    forall k :: 0 <= k < |trace| ==> OnLine(x0, y0, x1, y1, k, trace[k])
  }

  lemma OneMoreOnLine(x0: int, y0: int, x1: int, y1: int, trace: seq<Pixel>, i: nat, j: nat)
    requires AllOnLine(x0, y0, x1, y1, trace) && Walking(Abs(x1 - x0), Abs(y1 - y0), i, j, |trace|)
    ensures AllOnLine(x0, y0, x1, y1, trace + [Pixel(Along(x0, Sign(x1 - x0), i), Along(y0, Sign(y1 - y0), j))])
  {
    var p := Pixel(Along(x0, Sign(x1 - x0), i), Along(y0, Sign(y1 - y0), j));
    assert At(x0, y0, x1, y1, |trace|, i, j, p);
    assert OnLine(x0, y0, x1, y1, |trace|, p);
  }

  /** vesa_draw_line: exactly max(|dx|, |dy|) + 1 pixels, from the first end to the second, each the nearest one. */
  method DrawLine(x0: int, y0: int, x1: int, y1: int) returns (trace: seq<Pixel>)
    requires Int32(x0) && Int32(y0) && Int32(x1) && Int32(y1)
    requires Abs(x1 - x0) <= 715_827_882 && Abs(y1 - y0) <= 715_827_882
    ensures |trace| == Max(Abs(x1 - x0), Abs(y1 - y0)) + 1
    ensures trace[0] == Pixel(x0, y0) && trace[|trace| - 1] == Pixel(x1, y1)
    ensures AllOnLine(x0, y0, x1, y1, trace)
  {
    var absDx: int, absDy: int := Abs(x1 - x0), Abs(y1 - y0);
    var sx, sy := Sign(x1 - x0), Sign(y1 - y0);
    var err := absDx - absDy;
    var x, y := x0, y0;
    trace := [];
    ghost var i, j := 0, 0;
    WalkStarts(absDx, absDy);
    while true
      invariant Walking(absDx, absDy, i, j, |trace|) && 2 * err == DoubledError(absDx, absDy, i, j)
      invariant x == Along(x0, sx, i) && y == Along(y0, sy, j)
      invariant AllOnLine(x0, y0, x1, y1, trace)
      invariant if |trace| > 0 then trace[0] == Pixel(x0, y0) else x == x0 && y == y0
      decreases Max(absDx, absDy) - |trace|
    {
      ghost var n := |trace|;
      OneMoreOnLine(x0, y0, x1, y1, trace, i, j);
      trace := trace + [Pixel(x, y)];
      AlongSteps(x0, x1, i);
      AlongSteps(y0, y1, j);
      WalkEnds(absDx, absDy, i, j, n);
      if x == x1 && y == y1 { return; }

      WalkGoesOn(absDx, absDy, i, j, n);
      ErrorFollows(absDx, absDy, i, j);
      x, y, err := Advance(x, y, sx, sy, err, absDx, absDy, i, j);
      i, j := NextI(absDx, absDy, i, j), NextJ(absDx, absDy, i, j);
    }
  }

  /** The body of the loop after the pixel, in 32-bit range throughout. */
  method Advance(x: int, y: int, sx: int, sy: int, err: int, absDx: int, absDy: int, ghost i: int, ghost j: int)
    returns (nextX: int, nextY: int, nextErr: int)
    requires 0 <= absDx <= 715_827_882 && 0 <= absDy <= 715_827_882 && Nearest(absDx, absDy, i, j)
    requires 2 * err == DoubledError(absDx, absDy, i, j)
    ensures nextX == if StepsX(absDx, absDy, i, j) then x + sx else x
    ensures nextY == if StepsY(absDx, absDy, i, j) then y + sy else y
    ensures nextErr == err - (if StepsX(absDx, absDy, i, j) then absDy else 0)
                           + (if StepsY(absDx, absDy, i, j) then absDx else 0)
  {
    RoundFits(absDx, absDy, i, j);
    nextX, nextY, nextErr := x, y, err;
    var e2 := 2 * err;
    assert Int32(e2) && Int32(-absDy);
    if e2 > -absDy {
      nextErr := nextErr - absDy;
      nextX := nextX + sx;
      assert Int32(nextErr);
    }
    if e2 < absDx {
      nextErr := nextErr + absDx;
      nextY := nextY + sy;
      assert Int32(nextErr);
    }
  }
}
