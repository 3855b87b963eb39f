/** The Sobel gradients: accumulation order, closed form, range and exactness of the integer arithmetic. */
module Sobel {
  import opened Images

  const SOBEL_X: seq<seq<int>> := [[-1, 0, 1], [-2, 0, 2], [-1, 0, 1]]
  const SOBEL_Y: seq<seq<int>> := [[1, 2, 1], [0, 0, 0], [-1, -2, -1]]

  /** Integers below this bound are represented exactly in binary32 (section 3.6 of IEEE 754-2008). */
  const EXACT_LIMIT := 0x100_0000

  predicate IsKernel(kernel: seq<seq<int>>) {
    |kernel| == 3 && |kernel[0]| == 3 && |kernel[1]| == 3 && |kernel[2]| == 3
  }

  /** The accumulator when the kernel loops reach row x, column y. */
  function Accumulated(kernel: seq<seq<int>>, img: Grid<Byte>, p: Pixel, x: nat, y: nat): int
    requires IsKernel(kernel) && y <= 3 && (x < 3 || (x == 3 && y == 0))
    decreases x, y
  {
    if y > 0 then Accumulated(kernel, img, p, x, y - 1) + Near(img, p, x - 1, y - 2) * kernel[x][y - 1]
    else if x > 0 then Accumulated(kernel, img, p, x - 1, 3)
    else 0
  }

  /** The grey level at an offset from p. */
  function Near(img: Grid<Byte>, p: Pixel, dr: int, dc: int): Byte { At(img, p.row + dr, p.col + dc) }

  /** The horizontal gradient: right neighbours minus left neighbours, the middle pair counted twice. */
  function Gx(img: Grid<Byte>, p: Pixel): int {
    Near(img, p, -1, 1) - Near(img, p, -1, -1) + 2 * (Near(img, p, 0, 1) - Near(img, p, 0, -1))
    + Near(img, p, 1, 1) - Near(img, p, 1, -1)
  }

  /** The vertical gradient: upper neighbours minus lower neighbours, the middle pair counted twice. */
  function Gy(img: Grid<Byte>, p: Pixel): int {
    Near(img, p, -1, -1) - Near(img, p, 1, -1) + 2 * (Near(img, p, -1, 0) - Near(img, p, 1, 0))
    + Near(img, p, -1, 1) - Near(img, p, 1, 1)
  }

  function SquaredMagnitude(img: Grid<Byte>, p: Pixel): int {
    Gx(img, p) * Gx(img, p) + Gy(img, p) * Gy(img, p)
  }

  /** The sum of the positive (sign 1) or of the negative (sign -1) weights of the cells before row x, column y. */
  function WeightOfSign(kernel: seq<seq<int>>, sign: int, x: nat, y: nat): int
    requires IsKernel(kernel) && y <= 3 && (x < 3 || (x == 3 && y == 0))
    decreases x, y
  {
    if y > 0 then WeightOfSign(kernel, sign, x, y - 1) + if sign * kernel[x][y - 1] > 0 then kernel[x][y - 1] else 0
    else if x > 0 then WeightOfSign(kernel, sign, x - 1, 3)
    else 0
  }

  /** Every partial sum lies between the negative and the positive weights seen so far, times 255. */
  lemma {:induction false} AccumulatedRange(kernel: seq<seq<int>>, img: Grid<Byte>, p: Pixel, x: nat, y: nat)
    requires IsKernel(kernel) && y <= 3 && (x < 3 || (x == 3 && y == 0))
    ensures 255 * WeightOfSign(kernel, -1, x, y) <= Accumulated(kernel, img, p, x, y) <= 255 * WeightOfSign(kernel, 1, x, y)
    decreases x, y
  {
    hide Near;
    if y > 0 {
      AccumulatedRange(kernel, img, p, x, y - 1);
      ProductRange(Near(img, p, x - 1, y - 2), kernel[x][y - 1]);
    } else if x > 0 {
      AccumulatedRange(kernel, img, p, x - 1, 3);
    }
  }

  lemma ProductRange(v: Byte, k: int)
    ensures if k >= 0 then 0 <= v * k <= 255 * k else 255 * k <= v * k <= 0
  {
  }

  /** No accumulator ever leaves -1020..1020, at any point of the loops. */
  lemma PartialSums(img: Grid<Byte>, p: Pixel, x: nat, y: nat)
    requires y <= 3 && (x < 3 || (x == 3 && y == 0))
    ensures -1020 <= Accumulated(SOBEL_X, img, p, x, y) <= 1020
    ensures -1020 <= Accumulated(SOBEL_Y, img, p, x, y) <= 1020
  {
    AccumulatedRange(SOBEL_X, img, p, x, y);
    AccumulatedRange(SOBEL_Y, img, p, x, y);
    WeightsGrow(SOBEL_X, x, y);
    WeightsGrow(SOBEL_Y, x, y);
    WeightsOfSobel();
  }

  lemma {:induction false} WeightsGrow(kernel: seq<seq<int>>, x: nat, y: nat)
    requires IsKernel(kernel) && y <= 3 && (x < 3 || (x == 3 && y == 0))
    ensures WeightOfSign(kernel, 1, x, y) <= WeightOfSign(kernel, 1, 3, 0)
    ensures WeightOfSign(kernel, -1, x, y) >= WeightOfSign(kernel, -1, 3, 0)
    decreases 3 - x, 3 - y
  {
    if x < 3 && y < 3 {
      WeightsGrow(kernel, x, y + 1);
    } else if x < 3 {
      WeightsGrow(kernel, x + 1, 0);
    }
  }

  lemma WeightsOfSobel()
    ensures WeightOfSign(SOBEL_X, 1, 3, 0) == 4 && WeightOfSign(SOBEL_X, -1, 3, 0) == -4
    ensures WeightOfSign(SOBEL_Y, 1, 3, 0) == 4 && WeightOfSign(SOBEL_Y, -1, 3, 0) == -4
  {
    assert WeightOfSign(SOBEL_X, 1, 1, 0) == 1 && WeightOfSign(SOBEL_X, -1, 1, 0) == -1;
    assert WeightOfSign(SOBEL_X, 1, 2, 0) == 3 && WeightOfSign(SOBEL_X, -1, 2, 0) == -3;
    assert WeightOfSign(SOBEL_Y, 1, 1, 0) == 4 && WeightOfSign(SOBEL_Y, -1, 1, 0) == 0;
    assert WeightOfSign(SOBEL_Y, 1, 2, 0) == 4 && WeightOfSign(SOBEL_Y, -1, 2, 0) == 0;
  }

  lemma RowOfCells(kernel: seq<seq<int>>, img: Grid<Byte>, p: Pixel, x: nat)
    requires IsKernel(kernel) && x < 3
    ensures Accumulated(kernel, img, p, x + 1, 0) ==
            Accumulated(kernel, img, p, x, 0) +
            Near(img, p, x - 1, -1) * kernel[x][0] + Near(img, p, x - 1, 0) * kernel[x][1] + Near(img, p, x - 1, 1) * kernel[x][2]
  {
    assert Accumulated(kernel, img, p, x, 2) == Accumulated(kernel, img, p, x, 1) + Near(img, p, x - 1, 0) * kernel[x][1];
  }

  /** The accumulators of the kernel loops end at the differences of opposite neighbours. */
  lemma LoopsComputeGradients(img: Grid<Byte>, p: Pixel)
    ensures Accumulated(SOBEL_X, img, p, 3, 0) == Gx(img, p)
    ensures Accumulated(SOBEL_Y, img, p, 3, 0) == Gy(img, p)
  {
    hide Accumulated, Near;
    NothingAccumulated(SOBEL_X, img, p);
    RowOfCells(SOBEL_X, img, p, 0);
    RowOfCells(SOBEL_X, img, p, 1);
    RowOfCells(SOBEL_X, img, p, 2);
    NothingAccumulated(SOBEL_Y, img, p);
    RowOfCells(SOBEL_Y, img, p, 0);
    RowOfCells(SOBEL_Y, img, p, 1);
    RowOfCells(SOBEL_Y, img, p, 2);
  }

  lemma NothingAccumulated(kernel: seq<seq<int>>, img: Grid<Byte>, p: Pixel)
    requires IsKernel(kernel)
    ensures Accumulated(kernel, img, p, 0, 0) == 0
  {
  }

  /** A 3x3 image at whose centre the bound is reached. */
  const STEEPEST: Grid<Byte> := map[
    Pixel(0, 0) := 0, Pixel(0, 1) := 255, Pixel(0, 2) := 255,
    Pixel(1, 0) := 0, Pixel(1, 1) := 0, Pixel(1, 2) := 255,
    Pixel(2, 0) := 0, Pixel(2, 1) := 0, Pixel(2, 2) := 255]

  /**
   * The squared magnitude never exceeds 20 * 255 * 255, a bound some image reaches, so every integer computed
   * before the square root is exact in single precision, whatever the image.
   */
  lemma SquaredMagnitudeBound(img: Grid<Byte>, p: Pixel)
    ensures SquaredMagnitude(STEEPEST, Pixel(1, 1)) == 1300500
    ensures 0 <= SquaredMagnitude(img, p) <= 1300500 < EXACT_LIMIT
    ensures Gx(img, p) * Gx(img, p) < EXACT_LIMIT && Gy(img, p) * Gy(img, p) < EXACT_LIMIT
  {
    DiagonalSplit(Near(img, p, -1, 1) - Near(img, p, 1, -1), Near(img, p, 1, 1) - Near(img, p, -1, -1),
                  Near(img, p, 0, 1) - Near(img, p, 0, -1), Near(img, p, -1, 0) - Near(img, p, 1, 0));
  }

  /** The two gradients share the diagonal differences a and b with opposite signs, so they cannot both be extreme. */
  lemma DiagonalSplit(a: int, b: int, c: int, d: int)
    requires -255 <= a <= 255 && -255 <= b <= 255 && -255 <= c <= 255 && -255 <= d <= 255
    ensures var x, y := a + b + 2 * c, a - b + 2 * d; 0 <= x * x && 0 <= y * y && x * x + y * y <= 1300500
  {
    var x, y := a + b + 2 * c, a - b + 2 * d;
    var u := if a + b >= 0 then a + b else -(a + b);
    var v := if a - b >= 0 then a - b else -(a - b);
    SquareWithin(x, u + 510);
    SquareWithin(y, v + 510);
    SquaresOfParts(u, v);
  }

  lemma SquareWithin(x: int, m: int)
    requires -m <= x <= m
    ensures 0 <= x * x <= m * m
  {
    if x >= 0 {
      assert x * x <= x * m <= m * m;
    } else {
      assert (-x) * (-x) <= (-x) * m <= m * m;
    }
  }

  lemma SquaresOfParts(u: int, v: int)
    requires u >= 0 && v >= 0 && u + v <= 510
    ensures (u + 510) * (u + 510) + (v + 510) * (v + 510) <= 1300500
  {
    SquareWithin(u + v, 510);
    assert u * v >= 0;
    assert (u + v) * (u + v) == u * u + 2 * (u * v) + v * v;
    assert (u + 510) * (u + 510) == u * u + 1020 * u + 260100;
    assert (v + 510) * (v + 510) == v * v + 1020 * v + 260100;
  }

  /** The C library functions the gradient stage calls; their results may be rounded in any way. */
  datatype GradientLibrary = GradientLibrary(
    sqrt: int -> real,
    atan2: (int, int) -> real,
    normalize: Grid<real> -> Grid<real>)
  {
    /** cv::normalize keeps the frame and maps the values into 0..255. */
    ghost predicate Valid() {
      forall g: Grid<real> :: normalize(g).Keys == g.Keys &&
                              forall p :: p in g ==> 0.0 <= normalize(g)[p] <= 255.0
    }
  }

  function MagnitudeImage(rows: nat, cols: nat, img: Grid<Byte>, lib: GradientLibrary): (g: Grid<real>)
    ensures g.Keys == img.Keys
  {
    map p | p in img :: if Interior(rows, cols, p) then lib.sqrt(SquaredMagnitude(img, p)) else 0.0
  }

  function RawDirectionImage(rows: nat, cols: nat, img: Grid<Byte>, lib: GradientLibrary): (g: Grid<real>)
    ensures g.Keys == img.Keys
  {
    map p | p in img :: if Interior(rows, cols, p) then lib.atan2(Gy(img, p), Gx(img, p)) else 0.0
  }

  function DirectionImage(rows: nat, cols: nat, img: Grid<Byte>, lib: GradientLibrary): Grid<real> {
    lib.normalize(RawDirectionImage(rows, cols, img, lib))
  }

  /** The same image with every pixel brighter by a fixed amount. */
  ghost predicate Brightened(img: Grid<Byte>, brighter: Grid<Byte>, amount: int) {
    brighter.Keys == img.Keys && forall p :: p in img ==> brighter[p] == img[p] + amount
  }

  lemma BrightnessCancels(rows: nat, cols: nat, img: Grid<Byte>, brighter: Grid<Byte>, amount: int, p: Pixel)
    requires IsImage(rows, cols, img) && Brightened(img, brighter, amount) && Interior(rows, cols, p)
    ensures Gx(brighter, p) == Gx(img, p) && Gy(brighter, p) == Gy(img, p)
  {
    forall dr, dc | -1 <= dr <= 1 && -1 <= dc <= 1
      ensures Near(brighter, p, dr, dc) == Near(img, p, dr, dc) + amount
    {
      assert InFrame(rows, cols, Pixel(p.row + dr, p.col + dc));
    }
  }

  /** Only differences of grey levels matter: brightening the whole image changes neither magnitudes nor directions. */
  lemma BrightnessDoesNotMatter(rows: nat, cols: nat, img: Grid<Byte>, brighter: Grid<Byte>, amount: int, lib: GradientLibrary)
    requires IsImage(rows, cols, img) && Brightened(img, brighter, amount)
    ensures MagnitudeImage(rows, cols, brighter, lib) == MagnitudeImage(rows, cols, img, lib)
    ensures DirectionImage(rows, cols, brighter, lib) == DirectionImage(rows, cols, img, lib)
  {
    hide Gx, Gy;
    forall p | p in img && Interior(rows, cols, p)
      ensures Gx(brighter, p) == Gx(img, p) && Gy(brighter, p) == Gy(img, p)
    {
      BrightnessCancels(rows, cols, img, brighter, amount, p);
    }
    assert RawDirectionImage(rows, cols, brighter, lib) == RawDirectionImage(rows, cols, img, lib);
  }

  /** A plane: the grey level grows by down for each row and by right for each column. */
  ghost predicate IsRamp(rows: nat, cols: nat, img: Grid<Byte>, down: int, right: int, start: int) {
    IsImage(rows, cols, img) && forall p :: p in img ==> img[p] == start + down * p.row + right * p.col
  }

  lemma RampAt(img: Grid<Byte>, rows: nat, cols: nat, down: int, right: int, start: int, p: Pixel, dr: int, dc: int)
    requires IsRamp(rows, cols, img, down, right, start) && 0 < p.row < rows - 1 && 0 < p.col < cols - 1
    requires -1 <= dr <= 1 && -1 <= dc <= 1
    ensures Near(img, p, dr, dc) == start + down * p.row + right * p.col + down * dr + right * dc
  {
    var q := Pixel(p.row + dr, p.col + dc);
    assert InFrame(rows, cols, q);
    Distributed(down, p.row, dr);
    Distributed(right, p.col, dc);
  }

  lemma Distributed(a: int, b: int, c: int)
    ensures a * (b + c) == a * b + a * c
  {
  }

  /**
   * On a plane the gradients are eight times its slopes, to the right and upwards; so are the values from which the
   * stage takes magnitude and direction inside the image, while both are 0 on its border.
   */
  lemma RampGradients(rows: nat, cols: nat, img: Grid<Byte>, down: int, right: int, start: int, lib: GradientLibrary, p: Pixel)
    requires IsRamp(rows, cols, img, down, right, start) && p in img
    ensures var inside := 0 < p.row < rows - 1 && 0 < p.col < cols - 1;
            && (inside ==> Gx(img, p) == 8 * right && Gy(img, p) == -8 * down)
            && RawDirectionImage(rows, cols, img, lib)[p] == (if inside then lib.atan2(-8 * down, 8 * right) else 0.0)
            && MagnitudeImage(rows, cols, img, lib)[p] ==
               (if inside then lib.sqrt((8 * right) * (8 * right) + (-8 * down) * (-8 * down)) else 0.0)
  {
    hide Near, IsRamp;
    if 0 < p.row < rows - 1 && 0 < p.col < cols - 1 {
      forall dr, dc | -1 <= dr <= 1 && -1 <= dc <= 1
        ensures Near(img, p, dr, dc) == start + down * p.row + right * p.col + down * dr + right * dc
      {
        RampAt(img, rows, cols, down, right, start, p, dr, dc);
      }
      assert Near(img, p, -1, 1) - Near(img, p, -1, -1) == 2 * right;
      assert Near(img, p, 0, 1) - Near(img, p, 0, -1) == 2 * right;
      assert Near(img, p, 1, 1) - Near(img, p, 1, -1) == 2 * right;
      assert Near(img, p, -1, -1) - Near(img, p, 1, -1) == -2 * down;
      assert Near(img, p, -1, 0) - Near(img, p, 1, 0) == -2 * down;
      assert Near(img, p, -1, 1) - Near(img, p, 1, 1) == -2 * down;
    }
  }
}
