/** The filter as one function of the original image. */
module Pipeline {
  import opened Images
  import opened Blur
  import opened Sobel
  import opened Suppression
  import opened Hysteresis

  datatype Configuration = Configuration(cut: Thresholds, gaussian: Gaussian, library: GradientLibrary, toByte: real -> Byte)

  ghost function Canny(rows: nat, cols: nat, img: Grid<Byte>, k: Configuration): Grid<Byte>
    requires k.gaussian.Valid()
  {
    var blurred := BlurImage(img, k.gaussian);
    var mag := MagnitudeImage(rows, cols, blurred, k.library);
    var dir := DirectionImage(rows, cols, blurred, k.library);
    k.cut.Thresholded(SuppressedImage(rows, cols, mag, dir, k.toByte))
  }

  /** The zero border left by the suppression is safe for exactly the thresholds without low <= 0 < high. */
  lemma BorderIsSafeIff(rows: nat, cols: nat, mag: Grid<real>, dir: Grid<real>, toByte: real -> Byte, t: Thresholds)
    requires rows > 0 && cols > 0 && IsImage(rows, cols, mag)
    ensures t.SafeBorder(SuppressedImage(rows, cols, mag, dir, toByte)) <==> t.low > 0.0 || t.high <= 0.0
  {
    var img := SuppressedImage(rows, cols, mag, dir, toByte);
    assert Pixel(0, 0) in img && img[Pixel(0, 0)] == 0;
  }

  /**
   * After the suppression the linking pass stays inside its matrices for exactly those thresholds, whatever the
   * image and the order of the visits.
   */
  lemma LinkingInBoundsIff(rows: nat, cols: nat, mag: Grid<real>, dir: Grid<real>, toByte: real -> Byte, t: Thresholds,
                           order: seq<Pixel>)
    requires rows > 0 && cols > 0 && IsImage(rows, cols, mag)
    requires forall p :: p in order <==> p in mag
    ensures var img := SuppressedImage(rows, cols, mag, dir, toByte);
            Sweep(rows, cols, t.Weak(img), Start(img, t), order).Done? <==> t.low > 0.0 || t.high <= 0.0
  {
    var img := SuppressedImage(rows, cols, mag, dir, toByte);
    BorderIsSafeIff(rows, cols, mag, dir, toByte, t);
    InBoundsIffSafeBorder(rows, cols, img, t, order);
  }

  /** One black pixel and the thresholds 0 and 150: the pass leaves its matrices. */
  lemma ZeroThresholdOverruns()
    ensures var img: Grid<Byte> := map[Pixel(0, 0) := 0];
            var t := Thresholds(0.0, 150.0);
            Sweep(1, 1, t.Weak(img), Start(img, t), [Pixel(0, 0)]) == OutOfBounds
  {
    var img: Grid<Byte> := map[Pixel(0, 0) := 0];
    var t := Thresholds(0.0, 150.0);
    assert img[Pixel(0, 0)] as real == 0.0;
    InBoundsIffSafeBorder(1, 1, img, t, [Pixel(0, 0)]);
  }

  /** The step from a pixel to the first neighbour it is compared with; the second is the step back. */
  function StepAlong(direction: real): Pixel {
    if direction < 16.0 || (112.0 <= direction && direction < 144.0) || 240.0 <= direction then Pixel(0, 1)
    else if direction < 48.0 || (144.0 <= direction && direction < 176.0) then Pixel(1, -1)
    else if direction < 80.0 || (176.0 <= direction && direction < 208.0) then Pixel(1, 0)
    else Pixel(-1, -1)
  }

  /** The pixel and the two opposite neighbours along a direction lie in the image, and it is not exceeded by them. */
  predicate Peak(mag: Grid<real>, p: Pixel, d: Pixel) {
    var q, r := Pixel(p.row + d.row, p.col + d.col), Pixel(p.row - d.row, p.col - d.col);
    p in mag && q in mag && r in mag && mag[p] >= mag[q] && mag[p] >= mag[r]
  }

  /** The angle of a direction, one linear piece below 128 and one from 128 on. */
  lemma AngleOf(direction: real)
    requires 0.0 <= direction <= 255.0
    ensures Folded(RawAngle(direction)) == if direction < 128.0 then direction * 1.40625 else (direction - 128.0) * 1.40625
  {
    assert RawAngle(direction) == (direction - 128.0) * 1.40625;
  }

  /**
   * Which neighbours a normalised direction selects: its sector is one of the four, by eighths of the range with the
   * horizontal one around 0, 128 and 256.
   */
  lemma SectorsByDirection(direction: real)
    requires 0.0 <= direction <= 255.0
    ensures SectorOf(Folded(RawAngle(direction))) ==
            if direction < 16.0 || (112.0 <= direction && direction < 144.0) || 240.0 <= direction then Horizontal
            else if direction < 48.0 || (144.0 <= direction && direction < 176.0) then Rising
            else if direction < 80.0 || (176.0 <= direction && direction < 208.0) then Vertical
            else Falling
  {
    AngleOf(direction);
    hide RawAngle, Folded;
  }

  lemma MaximumIsPeak(rows: nat, cols: nat, mag: Grid<real>, direction: real, p: Pixel)
    requires IsImage(rows, cols, mag) && Interior(rows, cols, p) && 0.0 <= direction <= 255.0
    ensures IsMaximum(mag, direction, p) <==> Peak(mag, p, StepAlong(direction))
  {
    SectorsByDirection(direction);
    hide SectorOf, RawAngle, Folded;
  }

  /** Not below either of two neighbours. */
  predicate NotBelow(mag: Grid<real>, p: Pixel, q: Pixel, r: Pixel) {
    p in mag && q in mag && r in mag && mag[p] >= mag[q] && mag[p] >= mag[r]
  }

  /** The same range by range: the two neighbours with which each direction compares an interior pixel. */
  lemma ComparedNeighbours(rows: nat, cols: nat, mag: Grid<real>, d: real, i: int, j: int)
    requires IsImage(rows, cols, mag) && 1 <= i < rows - 1 && 1 <= j < cols - 1 && 0.0 <= d <= 255.0
    ensures 0.0 <= d < 16.0 || 112.0 <= d < 144.0 || 240.0 <= d <= 255.0 ==>
              (IsMaximum(mag, d, Pixel(i, j)) <==> NotBelow(mag, Pixel(i, j), Pixel(i, j + 1), Pixel(i, j - 1)))
    ensures 16.0 <= d < 48.0 || 144.0 <= d < 176.0 ==>
              (IsMaximum(mag, d, Pixel(i, j)) <==> NotBelow(mag, Pixel(i, j), Pixel(i + 1, j - 1), Pixel(i - 1, j + 1)))
    ensures 48.0 <= d < 80.0 || 176.0 <= d < 208.0 ==>
              (IsMaximum(mag, d, Pixel(i, j)) <==> NotBelow(mag, Pixel(i, j), Pixel(i + 1, j), Pixel(i - 1, j)))
    ensures 80.0 <= d < 112.0 || 208.0 <= d < 240.0 ==>
              (IsMaximum(mag, d, Pixel(i, j)) <==> NotBelow(mag, Pixel(i, j), Pixel(i - 1, j - 1), Pixel(i + 1, j + 1)))
  {
    MaximumIsPeak(rows, cols, mag, d, Pixel(i, j));
    hide IsMaximum, IsImage;
  }

  /** The last two stages on any gradients. */
  lemma KeptPixel(rows: nat, cols: nat, mag: Grid<real>, dir: Grid<real>, toByte: real -> Byte, t: Thresholds, p: Pixel)
    requires IsImage(rows, cols, mag) && p in mag && p in dir && 0.0 <= dir[p] <= 255.0
    ensures t.Thresholded(SuppressedImage(rows, cols, mag, dir, toByte))[p] ==
            if Interior(rows, cols, p) && Peak(mag, p, StepAlong(dir[p])) &&
               (toByte(mag[p]) as real >= t.low || toByte(mag[p]) as real >= t.high)
            then toByte(mag[p]) else 0
  {
    if Interior(rows, cols, p) {
      MaximumIsPeak(rows, cols, mag, dir[p], p);
    }
    hide IsMaximum, Peak, StepAlong;
  }

  /**
   * What the filter leaves in each pixel: the byte cast of the gradient magnitude of the blurred image where the
   * pixel is interior, is not exceeded by the two opposite neighbours along its direction, and reaches the lower of
   * the two thresholds; 0 everywhere else.
   */
  lemma FinalPixel(rows: nat, cols: nat, img: Grid<Byte>, k: Configuration, p: Pixel)
    requires k.gaussian.Valid() && k.library.Valid()
    requires IsImage(rows, cols, img) && p in img
    ensures var blurred := BlurImage(img, k.gaussian);
            var mag := MagnitudeImage(rows, cols, blurred, k.library);
            var dir := DirectionImage(rows, cols, blurred, k.library);
            var level := k.toByte(mag[p]);
            Canny(rows, cols, img, k)[p] ==
            if 1 <= p.row < rows - 1 && 1 <= p.col < cols - 1 && Peak(mag, p, StepAlong(dir[p])) &&
               (level as real >= k.cut.low || level as real >= k.cut.high)
            then level else 0
  {
    var blurred := BlurImage(img, k.gaussian);
    var raw := RawDirectionImage(rows, cols, blurred, k.library);
    assert p in raw && k.library.normalize(raw).Keys == raw.Keys;
    KeptPixel(rows, cols, MagnitudeImage(rows, cols, blurred, k.library), k.library.normalize(raw), k.toByte, k.cut, p);
    hide StepAlong, Peak, BlurImage, SuppressedImage, MagnitudeImage, RawDirectionImage, IsImage;
  }

  /** The squared gradient magnitudes of the interior, an integer field. */
  function SquaredField(rows: nat, cols: nat, img: Grid<Byte>): (g: Grid<int>)
    ensures g.Keys == img.Keys
  {
    map p | p in img :: if Interior(rows, cols, p) then SquaredMagnitude(img, p) else 0
  }

  /** A square root that keeps apart all values it is given and maps 0 to 0. */
  ghost predicate SeparatesSquares(sqrt: int -> real) {
    sqrt(0) == 0.0 && forall a, b :: 0 <= a < b <= 1300500 ==> sqrt(a) < sqrt(b)
  }

  lemma SqrtKeepsOrder(sqrt: int -> real, a: int, b: int)
    requires SeparatesSquares(sqrt) && 0 <= a <= 1300500 && 0 <= b <= 1300500
    ensures sqrt(a) >= sqrt(b) <==> a >= b
  {
    assert a < b ==> sqrt(a) < sqrt(b);
    assert b < a ==> sqrt(b) < sqrt(a);
  }

  lemma MagnitudeOrder(rows: nat, cols: nat, img: Grid<Byte>, lib: GradientLibrary, p: Pixel, q: Pixel)
    requires SeparatesSquares(lib.sqrt) && p in img && q in img
    ensures MagnitudeImage(rows, cols, img, lib)[p] >= MagnitudeImage(rows, cols, img, lib)[q] <==>
            SquaredField(rows, cols, img)[p] >= SquaredField(rows, cols, img)[q]
  {
    SquaredMagnitudeBound(img, p);
    SquaredMagnitudeBound(img, q);
    hide SquaredMagnitude;
    SqrtKeepsOrder(lib.sqrt, SquaredField(rows, cols, img)[p], SquaredField(rows, cols, img)[q]);
  }

  /** With such a square root a pixel is a peak exactly when no integer square along its direction exceeds its own. */
  lemma PeakComparesSquares(rows: nat, cols: nat, img: Grid<Byte>, lib: GradientLibrary, p: Pixel, d: Pixel)
    requires SeparatesSquares(lib.sqrt)
    ensures var q, r := Pixel(p.row + d.row, p.col + d.col), Pixel(p.row - d.row, p.col - d.col);
            Peak(MagnitudeImage(rows, cols, img, lib), p, d) <==>
            && p in img && q in img && r in img
            && SquaredField(rows, cols, img)[p] >= SquaredField(rows, cols, img)[q]
            && SquaredField(rows, cols, img)[p] >= SquaredField(rows, cols, img)[r]
  {
    hide SquaredField, MagnitudeImage, SeparatesSquares;
    var q, r := Pixel(p.row + d.row, p.col + d.col), Pixel(p.row - d.row, p.col - d.col);
    if p in img && q in img && r in img {
      MagnitudeOrder(rows, cols, img, lib, p, q);
      MagnitudeOrder(rows, cols, img, lib, p, r);
    }
  }
}
