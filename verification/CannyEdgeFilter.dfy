/** The four in-place stages of the edge filter, proved against the image functions of the other modules. */
module CannyEdgeFilter {
  import opened Images
  import opened Sums
  import opened Blur
  import opened Sobel
  import opened Suppression
  import opened Hysteresis
  import opened Matrices
  import opened Pipeline

  /** The cast of an accumulated value is its floor, because the value never leaves the byte range. */
  lemma StoredLevel(img: Grid<Byte>, k: Gaussian, toByte: real -> Byte, p: Pixel)
    requires k.Valid() && IsByteCast(toByte) && p in img
    ensures BlurImage(img, k)[p] == toByte(Convolved(img, k.size, k.Weights(), p))
  {
    BlurredWithinNeighbourhood(img, k, p, 0, 255);
  }

  class EdgeDetection {
    const m_lowThreshold: real
    const m_highThreshold: real
    /** The kernel size and m_sigma. */
    const gaussian: Gaussian
    const library: GradientLibrary
    /** static_cast<uint8_t>. */
    const toByte: real -> Byte

    var m_magnitude: array2<real>
    var m_direction: array2<real>
    var m_cannyEdges: array2<Byte>
    var m_originalImage: array2<Byte>

    constructor (lowThreshold: real, highThreshold: real, gaussian: Gaussian, library: GradientLibrary, toByte: real -> Byte)
      ensures m_lowThreshold == lowThreshold && m_highThreshold == highThreshold
      ensures this.gaussian == gaussian && this.library == library && this.toByte == toByte
    {
      m_lowThreshold, m_highThreshold := lowThreshold, highThreshold;
      this.gaussian, this.library, this.toByte := gaussian, library, toByte;
      m_magnitude, m_direction := new real[0, 0], new real[0, 0];
      m_cannyEdges, m_originalImage := new Byte[0, 0], new Byte[0, 0];
    }

    function Cut(): Thresholds { Thresholds(m_lowThreshold, m_highThreshold) }

    ghost predicate SameSize<S, T>(a: array2<S>, b: array2<T>) {
      a.Length0 == b.Length0 && a.Length1 == b.Length1
    }

    ghost predicate Configured() {
      gaussian.Valid() && library.Valid() && IsByteCast(toByte)
    }

    /** The state between two stages: four matrices of one non-empty size. */
    ghost predicate Valid()
      reads this
    {
      && Configured()
      && m_originalImage.Length0 > 0 && m_originalImage.Length1 > 0
      && SameSize(m_cannyEdges, m_originalImage)
      && SameSize(m_magnitude, m_originalImage)
      && SameSize(m_direction, m_originalImage)
      && m_magnitude != m_direction && m_cannyEdges != m_originalImage
    }

    /** The copy of the image with a zero border half a kernel wide. */
    method PadImage() returns (image_tmp: array2<Byte>)
      requires Valid()
      ensures fresh(image_tmp)
      ensures image_tmp.Length0 == m_originalImage.Length0 + gaussian.size - 1
      ensures image_tmp.Length1 == m_originalImage.Length1 + gaussian.size - 1
      ensures forall r, c :: 0 <= r < image_tmp.Length0 && 0 <= c < image_tmp.Length1 ==>
                               image_tmp[r, c] == At(View(m_originalImage), r - gaussian.Half(), c - gaussian.Half())
      ensures forall r, c :: 0 <= r < image_tmp.Length0 && 0 <= c < image_tmp.Length1 ==>
                               image_tmp[r, c] ==
                               if gaussian.size / 2 <= r < image_tmp.Length0 - gaussian.size / 2 &&
                                  gaussian.size / 2 <= c < image_tmp.Length1 - gaussian.size / 2
                               then m_originalImage[r - gaussian.size / 2, c - gaussian.size / 2] else 0
    {
      var half := gaussian.Half();
      image_tmp := new Byte[m_originalImage.Length0 + gaussian.size - 1, m_originalImage.Length1 + gaussian.size - 1];
      var rows, cols := image_tmp.Length0, image_tmp.Length1;
      for row := 0 to half
        invariant forall r, c :: 0 <= r < row && 0 <= c < cols ==> image_tmp[r, c] == 0
      {
        SetRow(image_tmp, row, 0);
      }
      for row := rows - half to rows
        invariant forall r, c :: 0 <= r < rows && 0 <= c < cols && (r < half || rows - half <= r < row) ==>
                                   image_tmp[r, c] == 0
      {
        SetRow(image_tmp, row, 0);
      }
      for col := 0 to half
        invariant forall r, c :: 0 <= r < rows && 0 <= c < cols && (r < half || rows - half <= r || c < col) ==>
                                   image_tmp[r, c] == 0
      {
        SetColumn(image_tmp, col, 0);
      }
      for col := cols - half to cols
        invariant forall r, c :: 0 <= r < rows && 0 <= c < cols && Outside(image_tmp, r, c) && !(col <= c && half <= r < rows - half) ==>
                                   image_tmp[r, c] == 0
      {
        SetColumn(image_tmp, col, 0);
      }
      CopyInside(image_tmp);
    }

    /** A cell of the border. */
    ghost predicate Outside(image_tmp: array2<Byte>, r: int, c: int) {
      r < gaussian.Half() || image_tmp.Length0 - gaussian.Half() <= r ||
      c < gaussian.Half() || image_tmp.Length1 - gaussian.Half() <= c
    }

    /** The fifth loop: the image goes inside the border. */
    method CopyInside(image_tmp: array2<Byte>)
      requires Valid() && image_tmp != m_originalImage
      requires image_tmp.Length0 == m_originalImage.Length0 + gaussian.size - 1
      requires image_tmp.Length1 == m_originalImage.Length1 + gaussian.size - 1
      requires forall r, c :: 0 <= r < image_tmp.Length0 && 0 <= c < image_tmp.Length1 && Outside(image_tmp, r, c) ==>
                                image_tmp[r, c] == 0
      modifies image_tmp
      ensures forall r, c :: 0 <= r < image_tmp.Length0 && 0 <= c < image_tmp.Length1 ==>
                               image_tmp[r, c] == At(View(m_originalImage), r - gaussian.Half(), c - gaussian.Half())
    {
      var half := gaussian.Half();
      for row := 0 to m_originalImage.Length0
        invariant forall r, c :: 0 <= r < image_tmp.Length0 && 0 <= c < image_tmp.Length1 && Outside(image_tmp, r, c) ==>
                                   image_tmp[r, c] == 0
        invariant forall r, c :: half <= r < half + row && half <= c < image_tmp.Length1 - half ==>
                                   image_tmp[r, c] == m_originalImage[r - half, c - half]
      {
        for col := 0 to m_originalImage.Length1
          invariant forall r, c :: 0 <= r < image_tmp.Length0 && 0 <= c < image_tmp.Length1 && Outside(image_tmp, r, c) ==>
                                     image_tmp[r, c] == 0
          invariant forall r, c :: half <= r < image_tmp.Length0 - half && half <= c < image_tmp.Length1 - half &&
                                   (r < half + row || (r == half + row && c < half + col)) ==>
                                     image_tmp[r, c] == m_originalImage[r - half, c - half]
        {
          image_tmp[row + half, col + half] := m_originalImage[row, col];
        }
      }
    }

    /** The first kernel loop: raw weights and their sum. */
    method FillKernel(raw: (int, int) -> real, size: nat) returns (kernel: array2<real>, kaccum: real)
      ensures fresh(kernel) && kernel.Length0 == size && kernel.Length1 == size
      ensures forall x, y :: 0 <= x < size && 0 <= y < size ==> kernel[x, y] == raw(x, y)
      ensures kaccum == DoubleSum(raw, size, size)
    {
      kernel := new real[size, size];
      kaccum := 0.0;
      for x := 0 to size
        invariant kaccum == DoubleSum(raw, x, size)
        invariant forall u, v :: 0 <= u < x && 0 <= v < size ==> kernel[u, v] == raw(u, v)
      {
        for y := 0 to size
          invariant kaccum == DoubleSum(raw, x, size) + RowSum(raw, x, y)
          invariant forall u, v :: 0 <= u < size && 0 <= v < size && (u < x || (u == x && v < y)) ==> kernel[u, v] == raw(u, v)
        {
          kernel[x, y] := raw(x, y);
          kaccum := kaccum + kernel[x, y];
        }
      }
    }

    /** kernel /= kaccum. */
    method DivideKernel(kernel: array2<real>, kaccum: real)
      requires kaccum != 0.0
      modifies kernel
      ensures forall x, y :: 0 <= x < kernel.Length0 && 0 <= y < kernel.Length1 ==> kernel[x, y] == old(kernel[x, y]) / kaccum
    {
      for x := 0 to kernel.Length0
        invariant forall u, v :: 0 <= u < kernel.Length0 && 0 <= v < kernel.Length1 ==>
                                   kernel[u, v] == if u < x then old(kernel[u, v]) / kaccum else old(kernel[u, v])
      {
        for y := 0 to kernel.Length1
          invariant forall u, v :: 0 <= u < kernel.Length0 && 0 <= v < kernel.Length1 ==>
                                     kernel[u, v] == if u < x || (u == x && v < y) then old(kernel[u, v]) / kaccum else old(kernel[u, v])
        {
          kernel[x, y] := kernel[x, y] / kaccum;
        }
      }
    }

    method BuildKernel() returns (kernel: array2<real>)
      requires Valid()
      ensures fresh(kernel) && kernel.Length0 == gaussian.size && kernel.Length1 == gaussian.size
      ensures forall x, y :: 0 <= x < gaussian.size && 0 <= y < gaussian.size ==> kernel[x, y] == gaussian.Weight(x, y)
    {
      var kaccum;
      kernel, kaccum := FillKernel(gaussian.RawWeights(), gaussian.size);
      assert kaccum == gaussian.Total();
      DivideKernel(kernel, kaccum);
    }

    /** The matrices the filter loops read: the padded image and a kernel with the given weights. */
    ghost predicate Prepared(image_tmp: array2<Byte>, kernel: array2<real>, img: Grid<Byte>, weights: (int, int) -> real)
      reads image_tmp, kernel
    {
      && kernel.Length0 == gaussian.size && kernel.Length1 == gaussian.size
      && (forall x, y :: 0 <= x < gaussian.size && 0 <= y < gaussian.size ==> kernel[x, y] == weights(x, y))
      && (forall r, c :: 0 <= r < image_tmp.Length0 && 0 <= c < image_tmp.Length1 ==>
                           image_tmp[r, c] == At(img, r - gaussian.Half(), c - gaussian.Half()))
    }

    /** One addition to blur_accum. */
    method AddTerm(blur_accum: real, level: Byte, weight: real, ghost img: Grid<Byte>, ghost weights: (int, int) -> real,
                   ghost p: Pixel, ghost x: int, ghost y: int)
      returns (blur_accum': real)
      requires level == At(img, p.row + x - gaussian.Half(), p.col + y - gaussian.Half()) && weight == weights(x, y)
      ensures blur_accum' == blur_accum + Terms(img, gaussian.Half(), weights, p)(x, y)
    {
      blur_accum' := blur_accum + level as real * weight;
    }

    /** The accumulated value of one output pixel. */
    method Accumulate(image_tmp: array2<Byte>, kernel: array2<real>, imrow: nat, imcol: nat,
                      ghost img: Grid<Byte>, ghost weights: (int, int) -> real)
      returns (blur_accum: real)
      requires gaussian.size % 2 == 1 && Prepared(image_tmp, kernel, img, weights)
      requires gaussian.Half() <= imrow < image_tmp.Length0 - gaussian.Half()
      requires gaussian.Half() <= imcol < image_tmp.Length1 - gaussian.Half()
      ensures blur_accum == Convolved(img, gaussian.size, weights, Pixel(imrow - gaussian.Half(), imcol - gaussian.Half()))
    {
      var half: int := gaussian.Half();
      hide At, Terms;
      ghost var p := Pixel(imrow - half, imcol - half);
      ghost var terms := Terms(img, half, weights, p);
      blur_accum := 0.0;
      for krow: int := -half to half + 1
        invariant blur_accum == DoubleSum(terms, krow + half, gaussian.size)
      {
        for kcol: int := -half to half + 1
          invariant blur_accum == DoubleSum(terms, krow + half, gaussian.size) + RowSum(terms, krow + half, kcol + half)
        {
          blur_accum := AddTerm(blur_accum, image_tmp[imrow + krow, imcol + kcol], kernel[krow + half, kcol + half],
                                img, weights, p, krow + half, kcol + half);
        }
      }
    }

    /** The filter loops, for any kernel. */
    method Filter(image_tmp: array2<Byte>, kernel: array2<real>, ghost img: Grid<Byte>, ghost weights: (int, int) -> real)
      requires gaussian.size % 2 == 1 && Prepared(image_tmp, kernel, img, weights) && image_tmp != m_cannyEdges
      requires image_tmp.Length0 == m_cannyEdges.Length0 + gaussian.size - 1
      requires image_tmp.Length1 == m_cannyEdges.Length1 + gaussian.size - 1
      modifies m_cannyEdges
      ensures forall r, c :: 0 <= r < m_cannyEdges.Length0 && 0 <= c < m_cannyEdges.Length1 ==>
                               m_cannyEdges[r, c] == toByte(Convolved(img, gaussian.size, weights, Pixel(r, c)))
    {
      hide Convolved, At, Terms;
      var half := gaussian.Half();
      for imrow := half to image_tmp.Length0 - half
        invariant forall r, c :: 0 <= r < imrow - half && 0 <= c < m_cannyEdges.Length1 ==>
                                   m_cannyEdges[r, c] == toByte(Convolved(img, gaussian.size, weights, Pixel(r, c)))
      {
        for imcol := half to image_tmp.Length1 - half
          invariant forall r, c :: 0 <= r < m_cannyEdges.Length0 && 0 <= c < m_cannyEdges.Length1 &&
                                   (r < imrow - half || (r == imrow - half && c < imcol - half)) ==>
                                     m_cannyEdges[r, c] == toByte(Convolved(img, gaussian.size, weights, Pixel(r, c)))
        {
          var blur_accum := Accumulate(image_tmp, kernel, imrow, imcol, img, weights);
          m_cannyEdges[imrow - half, imcol - half] := toByte(blur_accum);
        }
      }
    }

    method ApplyGaussianBlur()
      requires Valid()
      modifies m_cannyEdges
      ensures Valid()
      ensures View(m_cannyEdges) == BlurImage(View(m_originalImage), gaussian)
    {
      hide BlurImage, Convolved, View;
      ghost var img := View(m_originalImage);
      var image_tmp := PadImage();
      var kernel := BuildKernel();
      Filter(image_tmp, kernel, img, gaussian.Weights());
      forall r, c | 0 <= r < m_cannyEdges.Length0 && 0 <= c < m_cannyEdges.Length1
        ensures m_cannyEdges[r, c] == BlurImage(img, gaussian)[Pixel(r, c)]
      {
        StoredLevel(img, gaussian, toByte, Pixel(r, c));
      }
      ShowsIsView(m_cannyEdges, BlurImage(img, gaussian));
    }

    /** One addition to an accumulator. */
    method AddCell(kernel: seq<seq<int>>, sum: int, rowIndex: nat, colIndex: nat, kernelRowIndex: int, kernelColIndex: int,
                   ghost img: Grid<Byte>)
      returns (sum': int)
      requires IsKernel(kernel) && Shows(m_cannyEdges, img)
      requires 1 <= rowIndex < m_cannyEdges.Length0 - 1 && 1 <= colIndex < m_cannyEdges.Length1 - 1
      requires -1 <= kernelRowIndex <= 1 && -1 <= kernelColIndex <= 1
      requires sum == Accumulated(kernel, img, Pixel(rowIndex, colIndex), kernelRowIndex + 1, kernelColIndex + 1)
      ensures sum' == Accumulated(kernel, img, Pixel(rowIndex, colIndex), kernelRowIndex + 1, kernelColIndex + 2)
    {
      var pixelValue := m_cannyEdges[rowIndex + kernelRowIndex, colIndex + kernelColIndex];
      sum' := sum + pixelValue * kernel[kernelRowIndex + 1][kernelColIndex + 1];
    }

    /** The kernel loops of one interior pixel, for any two 3x3 kernels. */
    method Accumulators(sobelX: seq<seq<int>>, sobelY: seq<seq<int>>, rowIndex: nat, colIndex: nat, ghost img: Grid<Byte>)
      returns (gx: int, gy: int)
      requires IsKernel(sobelX) && IsKernel(sobelY) && Shows(m_cannyEdges, img)
      requires 1 <= rowIndex < m_cannyEdges.Length0 - 1 && 1 <= colIndex < m_cannyEdges.Length1 - 1
      ensures gx == Accumulated(sobelX, img, Pixel(rowIndex, colIndex), 3, 0)
      ensures gy == Accumulated(sobelY, img, Pixel(rowIndex, colIndex), 3, 0)
    {
      ghost var p := Pixel(rowIndex, colIndex);
      gx, gy := 0, 0;
      for kernelRowIndex: int := -1 to 2
        invariant gx == Accumulated(sobelX, img, p, kernelRowIndex + 1, 0)
        invariant gy == Accumulated(sobelY, img, p, kernelRowIndex + 1, 0)
      {
        for kernelColIndex: int := -1 to 2
          invariant gx == Accumulated(sobelX, img, p, kernelRowIndex + 1, kernelColIndex + 1)
          invariant gy == Accumulated(sobelY, img, p, kernelRowIndex + 1, kernelColIndex + 1)
        {
          gx := AddCell(sobelX, gx, rowIndex, colIndex, kernelRowIndex, kernelColIndex, img);
          gy := AddCell(sobelY, gy, rowIndex, colIndex, kernelRowIndex, kernelColIndex, img);
        }
      }
    }

    /** Magnitude and direction of one interior pixel. */
    method PixelGradient(rowIndex: nat, colIndex: nat, ghost img: Grid<Byte>) returns (magnitude: real, direction: real)
      requires 1 <= rowIndex < m_cannyEdges.Length0 - 1 && 1 <= colIndex < m_cannyEdges.Length1 - 1
      requires Shows(m_cannyEdges, img)
      ensures magnitude == library.sqrt(SquaredMagnitude(img, Pixel(rowIndex, colIndex)))
      ensures direction == library.atan2(Gy(img, Pixel(rowIndex, colIndex)), Gx(img, Pixel(rowIndex, colIndex)))
    {
      var gx, gy := Accumulators(SOBEL_X, SOBEL_Y, rowIndex, colIndex, img);
      LoopsComputeGradients(img, Pixel(rowIndex, colIndex));
      magnitude := library.sqrt(gx * gx + gy * gy);
      direction := library.atan2(gy, gx);
    }

    /** The loops over the interior pixels. */
    method InteriorGradients(ghost img: Grid<Byte>)
      requires Valid() && Shows(m_cannyEdges, img)
      modifies m_magnitude, m_direction
      ensures forall r, c :: 1 <= r < m_magnitude.Length0 - 1 && 1 <= c < m_magnitude.Length1 - 1 ==>
                               m_magnitude[r, c] == library.sqrt(SquaredMagnitude(img, Pixel(r, c)))
      ensures forall r, c :: 1 <= r < m_magnitude.Length0 - 1 && 1 <= c < m_magnitude.Length1 - 1 ==>
                               m_direction[r, c] == library.atan2(Gy(img, Pixel(r, c)), Gx(img, Pixel(r, c)))
    {
      hide SquaredMagnitude, Gx, Gy;
      var rows, cols := m_originalImage.Length0, m_originalImage.Length1;
      var rowIndex := 1;
      while rowIndex < rows - 1
        invariant 1 <= rowIndex
        invariant forall r, c :: 1 <= r < rowIndex && r < rows - 1 && 1 <= c < cols - 1 ==>
                                   m_magnitude[r, c] == library.sqrt(SquaredMagnitude(img, Pixel(r, c)))
        invariant forall r, c :: 1 <= r < rowIndex && r < rows - 1 && 1 <= c < cols - 1 ==>
                                   m_direction[r, c] == library.atan2(Gy(img, Pixel(r, c)), Gx(img, Pixel(r, c)))
      {
        var colIndex := 1;
        while colIndex < cols - 1
          invariant 1 <= colIndex
          invariant forall r, c :: 1 <= r < rows - 1 && 1 <= c < cols - 1 && (r < rowIndex || (r == rowIndex && c < colIndex)) ==>
                                     m_magnitude[r, c] == library.sqrt(SquaredMagnitude(img, Pixel(r, c)))
          invariant forall r, c :: 1 <= r < rows - 1 && 1 <= c < cols - 1 && (r < rowIndex || (r == rowIndex && c < colIndex)) ==>
                                     m_direction[r, c] == library.atan2(Gy(img, Pixel(r, c)), Gx(img, Pixel(r, c)))
        {
          var magnitude, direction := PixelGradient(rowIndex, colIndex, img);
          m_magnitude[rowIndex, colIndex] := magnitude;
          m_direction[rowIndex, colIndex] := direction;
          colIndex := colIndex + 1;
        }
        rowIndex := rowIndex + 1;
      }
    }

    method SobelOperator()
      requires Valid()
      modifies m_magnitude, m_direction
      ensures Valid()
      ensures View(m_magnitude) ==
              MagnitudeImage(m_originalImage.Length0, m_originalImage.Length1, View(m_cannyEdges), library)
      ensures View(m_direction) ==
              DirectionImage(m_originalImage.Length0, m_originalImage.Length1, View(m_cannyEdges), library)
    {
      hide SquaredMagnitude, Gx, Gy, View;
      ghost var img := View(m_cannyEdges);
      ghost var rows, cols := m_originalImage.Length0, m_originalImage.Length1;
      InteriorGradients(img);
      SetBorder(m_magnitude, 0.0);
      SetBorder(m_direction, 0.0);
      ShowsIsView(m_magnitude, MagnitudeImage(rows, cols, img, library));
      ShowsIsView(m_direction, RawDirectionImage(rows, cols, img, library));
      NormalizeDirection();
    }

    /** Writes the normalised directions back. */
    method NormalizeDirection()
      requires library.Valid()
      modifies m_direction
      ensures View(m_direction) == library.normalize(old(View(m_direction)))
    {
      var normalized := library.normalize(View(m_direction));
      assert normalized.Keys == View(m_direction).Keys;
      for row := 0 to m_direction.Length0
        invariant forall r, c :: 0 <= r < row && 0 <= c < m_direction.Length1 ==> m_direction[r, c] == normalized[Pixel(r, c)]
      {
        for col := 0 to m_direction.Length1
          invariant forall r, c :: 0 <= r < m_direction.Length0 && 0 <= c < m_direction.Length1 &&
                                   (r < row || (r == row && c < col)) ==>
                                     m_direction[r, c] == normalized[Pixel(r, c)]
        {
          m_direction[row, col] := normalized[Pixel(row, col)];
        }
      }
      assert View(m_direction).Keys == normalized.Keys;
    }

    /** The body of the suppression loop, with its private variables. */
    method SuppressPixel(i: nat, j: nat, ghost mag: Grid<real>, ghost dir: Grid<real>) returns (level: Byte)
      requires Valid()
      requires 1 <= i < m_magnitude.Length0 - 1 && 1 <= j < m_magnitude.Length1 - 1
      requires Shows(m_magnitude, mag) && Shows(m_direction, dir)
      ensures level == Kept(mag, dir, toByte, Pixel(i, j))
    {
      var neighbor_q := 255.0;
      var neighbor_r := 255.0;
      var angle := (m_direction[i, j] - 128.0) * 180.0 / 128.0;
      if angle < 0.0 {
        angle := angle + 180.0;
      }
      if (0.0 <= angle && angle < 22.5) || (157.5 <= angle && angle <= 180.0) {
        neighbor_q := m_magnitude[i, j + 1];
        neighbor_r := m_magnitude[i, j - 1];
      } else if 22.5 <= angle && angle < 67.5 {
        neighbor_q := m_magnitude[i + 1, j - 1];
        neighbor_r := m_magnitude[i - 1, j + 1];
      } else if 67.5 <= angle && angle < 112.5 {
        neighbor_q := m_magnitude[i + 1, j];
        neighbor_r := m_magnitude[i - 1, j];
      } else if 112.5 <= angle && angle < 157.5 {
        neighbor_q := m_magnitude[i - 1, j - 1];
        neighbor_r := m_magnitude[i + 1, j + 1];
      }
      var central := m_magnitude[i, j];
      if central >= neighbor_q && central >= neighbor_r {
        level := toByte(central);
      } else {
        level := 0;
      }
    }

    /** The sequential order of the suppression loop; ParallelSuppression shows every interleaving equal to it. */
    method SuppressInterior(ghost mag: Grid<real>, ghost dir: Grid<real>)
      requires Valid() && Shows(m_magnitude, mag) && Shows(m_direction, dir)
      modifies m_cannyEdges
      ensures View(m_cannyEdges) ==
              SuppressedInside(m_cannyEdges.Length0, m_cannyEdges.Length1, mag, dir, toByte, old(View(m_cannyEdges)))
    {
      hide Kept, View;
      var rows, cols := m_magnitude.Length0, m_magnitude.Length1;
      ghost var edges := View(m_cannyEdges);
      var i := 1;
      while i < rows - 1
        invariant 1 <= i
        invariant forall r, c :: 0 <= r < rows && 0 <= c < cols ==>
                                   m_cannyEdges[r, c] ==
                                   if r < i && Interior(rows, cols, Pixel(r, c)) then Kept(mag, dir, toByte, Pixel(r, c))
                                   else edges[Pixel(r, c)]
      {
        var j := 1;
        while j < cols - 1
          invariant 1 <= j
          invariant forall r, c :: 0 <= r < rows && 0 <= c < cols ==>
                                     m_cannyEdges[r, c] ==
                                     if (r < i || (r == i && c < j)) && Interior(rows, cols, Pixel(r, c))
                                     then Kept(mag, dir, toByte, Pixel(r, c)) else edges[Pixel(r, c)]
        {
          var level := SuppressPixel(i, j, mag, dir);
          m_cannyEdges[i, j] := level;
          j := j + 1;
        }
        i := i + 1;
      }
      ShowsIsView(m_cannyEdges, SuppressedInside(rows, cols, mag, dir, toByte, edges));
    }

    method NonMaximumSuppression()
      requires Valid()
      modifies m_cannyEdges
      ensures Valid()
      ensures View(m_cannyEdges) ==
              SuppressedImage(m_originalImage.Length0, m_originalImage.Length1, View(m_magnitude), View(m_direction), toByte)
    {
      hide Kept, View;
      ghost var mag, dir := View(m_magnitude), View(m_direction);
      SuppressInterior(mag, dir);
      SetBorder(m_cannyEdges, 0);
      ShowsIsView(m_cannyEdges, SuppressedImage(m_originalImage.Length0, m_originalImage.Length1, mag, dir, toByte));
    }

    /**
     * Follows a weak pixel. The precondition is that no activation indexes a matrix outside its frame; the effect
     * on the strong mask and on the edges is the one Check describes.
     */
    method CheckContours(strongEdges: array2<bool>, weakEdges: array2<bool>, row: int, col: int, prevRow: int, prevCol: int)
      requires SameSize(strongEdges, m_cannyEdges) && SameSize(weakEdges, m_cannyEdges) && strongEdges != weakEdges
      requires Check(m_cannyEdges.Length0, m_cannyEdges.Length1, Marked(weakEdges),
                     Links(Marked(strongEdges), View(m_cannyEdges)), Pixel(row, col), Pixel(prevRow, prevCol)).Done?
      modifies strongEdges, m_cannyEdges
      ensures Links(Marked(strongEdges), View(m_cannyEdges)) ==
              Check(m_cannyEdges.Length0, m_cannyEdges.Length1, Marked(weakEdges),
                    old(Links(Marked(strongEdges), View(m_cannyEdges))), Pixel(row, col), Pixel(prevRow, prevCol)).links
      decreases row + 1
    {
      if strongEdges[row, col] {
        return;
      }
      ghost var p, prev, weak := Pixel(row, col), Pixel(prevRow, prevCol), Marked(weakEdges);
      ghost var s := Links(Marked(strongEdges), View(m_cannyEdges));
      strongEdges[row, col] := weakEdges[row, col];
      if !strongEdges[row, col] {
        m_cannyEdges[row, col] := 0;
        assert Marked(strongEdges) == s.strong;
        ShowsIsView(m_cannyEdges, s.edges[p := 0]);
        return;
      }
      assert Marked(strongEdges) == s.strong + {p};
      ghost var s' := s.(strong := s.strong + {p});
      ghost var end := Check(m_cannyEdges.Length0, m_cannyEdges.Length1, weak, s, p, prev).links;
      for side_row: int := row - 1 to row + 1
        invariant Marked(weakEdges) == weak
        invariant Links(Marked(strongEdges), View(m_cannyEdges)) == if side_row == row - 1 then s' else end
      {
        for side_col: int := col - 1 to col + 1
          invariant Marked(weakEdges) == weak
          invariant Links(Marked(strongEdges), View(m_cannyEdges)) ==
                    if side_row == row - 1 && side_col == col - 1 then s' else end
        {
          if (side_col != prevCol && side_row != prevRow) && (side_col != col && side_row != row) {
            CheckContours(strongEdges, weakEdges, side_row, side_col, row, col);
          }
        }
      }
    }

    /** The masks at the start of the pass. */
    method CutMasks() returns (strongEdges: array2<bool>, weakEdges: array2<bool>)
      ensures fresh(strongEdges) && fresh(weakEdges) && strongEdges != weakEdges
      ensures SameSize(strongEdges, m_cannyEdges) && SameSize(weakEdges, m_cannyEdges)
      ensures Marked(strongEdges) == Cut().Strong(View(m_cannyEdges))
      ensures Marked(weakEdges) == Cut().Weak(View(m_cannyEdges))
    {
      var rows, cols := m_cannyEdges.Length0, m_cannyEdges.Length1;
      strongEdges := new bool[rows, cols]((r, c) => false);
      weakEdges := new bool[rows, cols]((r, c) => false);
      for row := 0 to rows
        invariant forall r, c :: 0 <= r < row && 0 <= c < cols ==>
                                   && strongEdges[r, c] == (m_cannyEdges[r, c] as real >= m_highThreshold)
                                   && weakEdges[r, c] == (m_cannyEdges[r, c] as real >= m_lowThreshold)
      {
        for col := 0 to cols
          invariant forall r, c :: 0 <= r < rows && 0 <= c < cols && (r < row || (r == row && c < col)) ==>
                                     && strongEdges[r, c] == (m_cannyEdges[r, c] as real >= m_highThreshold)
                                     && weakEdges[r, c] == (m_cannyEdges[r, c] as real >= m_lowThreshold)
        {
          var pixelValue := m_cannyEdges[row, col] as real;
          strongEdges[row, col] := pixelValue >= m_highThreshold;
          weakEdges[row, col] := pixelValue >= m_lowThreshold;
        }
      }
    }

    /** The masks and the edges are those of the raster sweep of img that has reached the given row and column. */
    ghost predicate SweptTo(strongEdges: array2<bool>, weakEdges: array2<bool>, img: Grid<Byte>, row: nat, col: nat)
      reads this, strongEdges, weakEdges, m_cannyEdges
    {
      && SameSize(strongEdges, m_cannyEdges) && SameSize(weakEdges, m_cannyEdges) && strongEdges != weakEdges
      && IsImage(m_cannyEdges.Length0, m_cannyEdges.Length1, img)
      && Marked(weakEdges) == Cut().Weak(img)
      && col <= m_cannyEdges.Length1
      && var o := Sweep(m_cannyEdges.Length0, m_cannyEdges.Length1, Marked(weakEdges), Start(img, Cut()),
                        RasterUpTo(m_cannyEdges.Length1, row, col));
         o.Done? && o.links == Links(Marked(strongEdges), View(m_cannyEdges))
    }

    /** The body of the driver's loops. */
    method VisitPixel(strongEdges: array2<bool>, weakEdges: array2<bool>, row: nat, col: nat, ghost img: Grid<Byte>)
      requires row < m_cannyEdges.Length0 && col < m_cannyEdges.Length1
      requires SweptTo(strongEdges, weakEdges, img, row, col) && Cut().SafeBorder(img)
      modifies strongEdges, m_cannyEdges
      ensures SweptTo(strongEdges, weakEdges, img, row, col + 1)
    {
      hide Sweep, RasterUpTo, Check, View;
      RasterStep(m_cannyEdges.Length0, m_cannyEdges.Length1, img, Cut(), row, col);
      if strongEdges[row, col] {
        return;
      }
      ghost var weak := Marked(weakEdges);
      CheckContours(strongEdges, weakEdges, row, col, row, col);
      assert Marked(weakEdges) == weak;
    }

    /** The driver's loops, over masks cut from img. */
    method LinkWeakEdges(strongEdges: array2<bool>, weakEdges: array2<bool>, ghost img: Grid<Byte>)
      requires SameSize(strongEdges, m_cannyEdges) && SameSize(weakEdges, m_cannyEdges) && strongEdges != weakEdges
      requires img == View(m_cannyEdges) && Cut().SafeBorder(img)
      requires Marked(strongEdges) == Cut().Strong(img) && Marked(weakEdges) == Cut().Weak(img)
      modifies strongEdges, m_cannyEdges
      ensures Marked(strongEdges) == Cut().Strong(img) + Cut().Weak(img)
      ensures View(m_cannyEdges) == Cut().Thresholded(img)
    {
      hide Sweep, RasterUpTo, Marked, View;
      var rows, cols := m_cannyEdges.Length0, m_cannyEdges.Length1;
      RasterStarts(rows, cols, img, Cut());
      for row := 0 to rows
        invariant SweptTo(strongEdges, weakEdges, img, row, 0)
      {
        for col := 0 to cols
          invariant SweptTo(strongEdges, weakEdges, img, row, col)
        {
          VisitPixel(strongEdges, weakEdges, row, col, img);
        }
        RowEnds(cols, row);
      }
      RasterThresholds(rows, cols, img, Cut());
    }

    method ApplyLinkingAndHysteresis()
      requires Cut().SafeBorder(View(m_cannyEdges))
      modifies m_cannyEdges
      ensures View(m_cannyEdges) == Cut().Thresholded(old(View(m_cannyEdges)))
    {
      var strongEdges, weakEdges := CutMasks();
      LinkWeakEdges(strongEdges, weakEdges, View(m_cannyEdges));
    }

    /**
     * The whole filter on a loaded image; an empty image is the failed load. The thresholds excluded are exactly
     * those with which the linking pass leaves its matrices, whatever the image.
     */
    method CannyEdgeDetection(image: array2<Byte>) returns (loaded: bool)
      requires Configured()
      requires image.Length0 > 0 && image.Length1 > 0 ==> m_lowThreshold > 0.0 || m_highThreshold <= 0.0
      modifies this
      ensures loaded <==> image.Length0 > 0 && image.Length1 > 0
      ensures loaded ==> Valid() && m_originalImage == image && unchanged(image)
      ensures loaded ==> View(m_cannyEdges) == Canny(image.Length0, image.Length1, View(image), Settings())
    {
      m_originalImage := image;
      if image.Length0 == 0 || image.Length1 == 0 {
        return false;
      }
      m_cannyEdges := new Byte[image.Length0, image.Length1];
      m_magnitude := new real[image.Length0, image.Length1];
      m_direction := new real[image.Length0, image.Length1];
      ghost var img := View(image);
      ApplyGaussianBlur();
      SobelOperator();
      NonMaximumSuppression();
      BorderIsSafeIff(image.Length0, image.Length1, View(m_magnitude), View(m_direction), toByte, Cut());
      ApplyLinkingAndHysteresis();
      return true;
    }

    function Settings(): Configuration { Configuration(Cut(), gaussian, library, toByte) }
  }
}
