/** The Gaussian blur as a function of the image: kernel, weighted neighbourhood sum, grey level. */
module Blur {
  import opened Images
  import opened Sums

  lemma ProductPositive(a: real, b: real)
    requires a > 0.0 && b > 0.0
    ensures a * b > 0.0
  {
  }

  lemma Quotient(a: real, t: real)
    requires a > 0.0 && t > 0.0
    ensures a / t > 0.0 && a / t == (1.0 / t) * a
    ensures a == t ==> (1.0 / t) * a == 1.0
  {
  }

  /** The parameters of the kernel. The exponential and pi are those of the C++ library. */
  datatype Gaussian = Gaussian(size: nat, sigma: real, exp: real -> real, pi: real) {

    ghost predicate Valid() {
      size % 2 == 1 && sigma != 0.0 && pi > 0.0 && forall x :: exp(x) > 0.0
    }

    function Half(): nat { size / 2 }

    function Square(z: real): real { z * z }

    /** The divisor of the density, positive because sigma enters squared. */
    function Spread(): real { 2.0 * pi * sigma * sigma }

    lemma SpreadPositive()
      requires sigma != 0.0 && pi > 0.0
      ensures Spread() > 0.0
    {
      var s := if sigma > 0.0 then sigma else -sigma;
      ProductPositive(2.0 * pi, s);
      ProductPositive(2.0 * pi * s, s);
    }

    /** The weight before normalisation. */
    function Raw(x: int, y: int): real
      requires sigma != 0.0 && pi > 0.0
    {
      SpreadPositive();
      var mean := (size / 2) as real;
      exp(-0.5 * (Square((x as real - mean) / sigma) + Square((y as real - mean) / sigma))) / Spread()
    }

    function RawWeights(): (int, int) -> real
      requires sigma != 0.0 && pi > 0.0
    {
      (x: int, y: int) => Raw(x, y)
    }

    /** kaccum after the kernel loops. */
    ghost function Total(): (t: real)
      requires Valid()
      ensures t > 0.0
    {
      RawPositive();
      DoubleSumPositive(RawWeights(), size, size);
      DoubleSum(RawWeights(), size, size)
    }

    lemma RawPositive()
      requires Valid()
      ensures forall x, y :: Raw(x, y) > 0.0
    {
      SpreadPositive();
    }

    /** The normalised weight. */
    ghost function Weight(x: int, y: int): real
      requires Valid()
    {
      Raw(x, y) / Total()
    }

    ghost function Weights(): (int, int) -> real
      requires Valid()
    {
      (x: int, y: int) => Weight(x, y)
    }

    /** The normalised kernel is a set of positive weights that sum to one. */
    lemma WeightsAreConvex()
      requires Valid()
      ensures forall x, y :: Weight(x, y) > 0.0
      ensures DoubleSum(Weights(), size, size) == 1.0
    {
      RawPositive();
      var t := Total();
      forall x, y
        ensures Weight(x, y) > 0.0 && Weight(x, y) == Scaled(1.0 / t, RawWeights())(x, y)
      {
        Quotient(Raw(x, y), t);
      }
      hide Raw, Weight, Total;
      DoubleSumEqual(Weights(), Scaled(1.0 / t, RawWeights()), size, size);
      DoubleSumScaled(RawWeights(), 1.0 / t, size, size);
      Quotient(t, t);
    }

    lemma WeightsAreSymmetric(x: int, y: int)
      requires Valid()
      ensures Weight(x, y) == Weight(y, x)
    {
      var mean := (size / 2) as real;
      var a, b := Square((x as real - mean) / sigma), Square((y as real - mean) / sigma);
      assert a + b == b + a;
    }
  }

  /** The padded grey level under kernel cell (x, y) when the kernel is centred on p. */
  function Under(img: Grid<Byte>, k: Gaussian, p: Pixel, x: int, y: int): Byte {
    At(img, p.row + x - k.Half(), p.col + y - k.Half())
  }

  ghost predicate Between(img: Grid<Byte>, k: Gaussian, p: Pixel, lo: int, hi: int) {
    forall x, y :: 0 <= x < k.size && 0 <= y < k.size ==> lo <= Under(img, k, p, x, y) <= hi
  }

  /** What the inner loop adds for one kernel cell at one pixel of the zero-padded image. */
  ghost function Terms(img: Grid<Byte>, half: nat, weights: (int, int) -> real, p: Pixel): (int, int) -> real {
    (x: int, y: int) => At(img, p.row + x - half, p.col + y - half) as real * weights(x, y)
  }

  /** The accumulator at the end of the kernel loops, for any kernel. */
  ghost function Convolved(img: Grid<Byte>, size: nat, weights: (int, int) -> real, p: Pixel): real {
    DoubleSum(Terms(img, size / 2, weights, p), size, size)
  }

  ghost function Blurred(img: Grid<Byte>, k: Gaussian, p: Pixel): real
    requires k.Valid()
  {
    Convolved(img, k.size, k.Weights(), p)
  }

  /**
   * A blurred value never leaves the range of its padded neighbourhood: whatever bounds hold for all
   * the grey levels under the kernel hold for the accumulated value.
   */
  lemma BlurredWithinNeighbourhood(img: Grid<Byte>, k: Gaussian, p: Pixel, lo: int, hi: int)
    requires k.Valid() && Between(img, k, p, lo, hi)
    ensures lo as real <= Blurred(img, k, p) <= hi as real
  {
    var w := k.Weights();
    var t := Terms(img, k.Half(), w, p);
    k.WeightsAreConvex();
    forall x, y | 0 <= x < k.size && 0 <= y < k.size
      ensures Scaled(lo as real, w)(x, y) <= t(x, y)
      ensures t(x, y) <= Scaled(hi as real, w)(x, y)
    {
      assert lo <= Under(img, k, p, x, y) <= hi;
      ScaledBounds(w, x, y, lo as real, Under(img, k, p, x, y) as real, hi as real, t(x, y));
    }
    DoubleSumAtLeast(w, t, lo as real, k.size, k.size);
    DoubleSumAtMost(w, t, hi as real, k.size, k.size);
  }

  /** The grey level stored by the byte cast, which truncates. */
  ghost function BlurLevel(img: Grid<Byte>, k: Gaussian, p: Pixel): Byte
    requires k.Valid()
  {
    BlurredWithinNeighbourhood(img, k, p, 0, 255);
    Blurred(img, k, p).Floor
  }

  ghost function BlurImage(img: Grid<Byte>, k: Gaussian): (g: Grid<Byte>)
    requires k.Valid()
    ensures g.Keys == img.Keys
  {
    map p | p in img :: BlurLevel(img, k, p)
  }

  /** The same range for the stored level, which also differs from the real average by less than one. */
  lemma BlurLevelWithinNeighbourhood(img: Grid<Byte>, k: Gaussian, p: Pixel, lo: int, hi: int)
    requires k.Valid() && Between(img, k, p, lo, hi)
    ensures lo <= BlurLevel(img, k, p) <= hi
    ensures BlurLevel(img, k, p) as real <= Blurred(img, k, p) < BlurLevel(img, k, p) as real + 1.0
  {
    BlurredWithinNeighbourhood(img, k, p, lo, hi);
  }
}
