/** The shape of the blur kernel, and what it makes of an image: impulse response, linearity, reflections. */
module KernelShape {
  import opened Images
  import opened Sums
  import opened Blur
  import opened Transposition

  /** An exponential function turns sums into products. */
  ghost predicate IsExponential(exp: real -> real) {
    forall a, b :: exp(a + b) == exp(a) * exp(b)
  }

  /** How far a weight lies below the one at the centre, in units of the exponent. */
  ghost function Falloff(sigma: real, u: int, v: int): real
    requires sigma != 0.0
  {
    -((u * u + v * v) as real) / (2.0 * sigma * sigma)
  }

  lemma PositiveProduct(a: real, b: real, c: real)
    requires a > 0.0 && b > 0.0 && c == a * b
    ensures c > 0.0
  {
  }

  lemma DenominatorPositive(sigma: real, d: real)
    requires sigma != 0.0 && d == 2.0 * sigma * sigma
    ensures d > 0.0
  {
    if sigma > 0.0 {
      PositiveProduct(sigma, sigma, d / 2.0);
    } else {
      PositiveProduct(-sigma, -sigma, d / 2.0);
    }
  }

  lemma QuotientIs(n: real, d: real, q: real)
    requires d > 0.0 && q * d == n
    ensures n / d == q
  {
  }

  /** Halving a sum of squares and dividing by a square. */
  lemma HalvedSum(sigma: real, u: real, v: real, x: real, y: real)
    requires x * sigma == u && y * sigma == v
    ensures (-0.5 * (x * x + y * y)) * (2.0 * sigma * sigma) == -(u * u + v * v)
  {
    assert u * u == (x * x) * (sigma * sigma) && v * v == (y * y) * (sigma * sigma);
  }

  lemma ExponentIsFalloff(sigma: real, u: int, v: int, x: real, y: real)
    requires sigma != 0.0 && x == u as real / sigma && y == v as real / sigma
    ensures -0.5 * (x * x + y * y) == Falloff(sigma, u, v)
  {
    var d := 2.0 * sigma * sigma;
    DenominatorPositive(sigma, d);
    HalvedSum(sigma, u as real, v as real, x, y);
    SquaresAsReals(u, v);
    QuotientIs(-((u * u + v * v) as real), d, -0.5 * (x * x + y * y));
  }

  lemma SquaresAsReals(u: int, v: int)
    ensures (u * u + v * v) as real == u as real * u as real + v as real * v as real
  {
  }

  lemma RawAt(k: Gaussian, u: int, v: int)
    requires k.Valid()
    ensures k.Spread() > 0.0
    ensures k.Raw(k.size / 2 + u, k.size / 2 + v) == k.exp(Falloff(k.sigma, u, v)) / k.Spread()
  {
    k.SpreadPositive();
    var mean := (k.size / 2) as real;
    assert (k.size / 2 + u) as real - mean == u as real && (k.size / 2 + v) as real - mean == v as real;
    var x, y := u as real / k.sigma, v as real / k.sigma;
    ExponentIsFalloff(k.sigma, u, v, x, y);
    assert k.Square(x) == x * x && k.Square(y) == y * y;
    hide Falloff, Gaussian.Square, Gaussian.Spread;
  }

  lemma CommonFactor(a: real, b: real, c: real, s: real, t: real)
    requires s > 0.0 && t > 0.0 && c == a * b
    ensures c / s / t == a / s / t * b
  {
    var q := a / s / t;
    assert q * t == a / s;
    assert (q * t) * s == a;
    assert (q * b) * t * s == c;
  }

  lemma NoFalloffAtCentre(sigma: real)
    requires sigma != 0.0
    ensures Falloff(sigma, 0, 0) == 0.0
  {
    var d := 2.0 * sigma * sigma;
    DenominatorPositive(sigma, d);
    QuotientIs(0.0, d, 0.0);
  }

  lemma ExpOfNothing(exp: real -> real, f: real)
    requires IsExponential(exp)
    ensures exp(f) == exp(0.0) * exp(f)
  {
    assert exp(0.0 + f) == exp(0.0) * exp(f);
  }

  /**
   * The kernel is the Gaussian bell around its central cell: going u rows and v columns away from it multiplies the
   * weight by the exponential of -(u * u + v * v) / (2 * sigma * sigma).
   */
  lemma WeightsFollowBell(k: Gaussian, u: int, v: int)
    requires k.Valid() && IsExponential(k.exp)
    ensures k.Weight(k.size / 2 + u, k.size / 2 + v) == k.Weight(k.size / 2, k.size / 2) * k.exp(Falloff(k.sigma, u, v))
  {
    hide Falloff, IsExponential, Gaussian.Raw, Gaussian.Spread, Gaussian.Total;
    var f := Falloff(k.sigma, u, v);
    RawAt(k, u, v);
    RawAt(k, 0, 0);
    NoFalloffAtCentre(k.sigma);
    ExpOfNothing(k.exp, f);
    CommonFactor(k.exp(0.0), k.exp(f), k.exp(f), k.Spread(), k.Total());
  }

  lemma SquareOfOpposite(z: real, s: real)
    requires s != 0.0
    ensures (-z / s) * (-z / s) == (z / s) * (z / s)
  {
    assert -z / s == -(z / s);
  }

  lemma RawMirrored(k: Gaussian, x: int, y: int)
    requires k.Valid()
    ensures k.Raw(k.size - 1 - x, y) == k.Raw(x, y)
  {
    var mean := (k.size / 2) as real;
    var z := x as real - mean;
    assert (k.size - 1 - x) as real - mean == -z;
    SquareOfOpposite(z, k.sigma);
    assert k.Square(-z / k.sigma) == k.Square(z / k.sigma);
    hide Gaussian.Square, Gaussian.Spread;
  }

  /** The kernel is the same read from either end. */
  lemma WeightsAreMirrored(k: Gaussian, x: int, y: int)
    requires k.Valid()
    ensures k.Weight(k.size - 1 - x, y) == k.Weight(x, y)
  {
    RawMirrored(k, x, y);
    hide Gaussian.Raw, Gaussian.Total;
  }

  /** Black but for one pixel. */
  ghost predicate OnlyLit(img: Grid<Byte>, q: Pixel) {
    q in img && forall p :: p in img && p != q ==> img[p] == 0
  }

  lemma TermOfLit(img: Grid<Byte>, half: nat, weights: (int, int) -> real, q: Pixel, p: Pixel, i: int, j: int)
    requires OnlyLit(img, q)
    ensures Terms(img, half, weights, p)(i, j) ==
            if i == q.row - p.row + half && j == q.col - p.col + half then img[q] as real * weights(i, j) else 0.0
  {
    var under := Pixel(p.row + i - half, p.col + j - half);
    assert under == q <==> i == q.row - p.row + half && j == q.col - p.col + half;
    assert At(img, under.row, under.col) == if under == q then img[q] else 0;
    assert 0.0 * weights(i, j) == 0.0;
  }

  /**
   * A single lit pixel spreads as the kernel centred on it: at p it contributes its level times the weight of the
   * cell under which it lies when the kernel is centred on p, and nothing where the kernel does not reach it.
   */
  lemma LitPixelSpreads(img: Grid<Byte>, k: Gaussian, q: Pixel, p: Pixel)
    requires k.Valid() && OnlyLit(img, q)
    ensures var x, y := q.row - p.row + k.size / 2, q.col - p.col + k.size / 2;
            Blurred(img, k, p) == if 0 <= x < k.size && 0 <= y < k.size then img[q] as real * k.Weight(x, y) else 0.0
  {
    hide Gaussian.Weight, Gaussian.Valid, Terms;
    var x, y := q.row - p.row + k.size / 2, q.col - p.col + k.size / 2;
    forall i, j | 0 <= i < k.size && 0 <= j < k.size && !(i == x && j == y)
      ensures Terms(img, k.size / 2, k.Weights(), p)(i, j) == 0.0
    {
      TermOfLit(img, k.size / 2, k.Weights(), q, p, i, j);
    }
    DoubleSumSingle(Terms(img, k.size / 2, k.Weights(), p), k.size, k.size, x, y);
    TermOfLit(img, k.size / 2, k.Weights(), q, p, x, y);
  }

  /** The blur is linear before truncation, so with the spread of single pixels it is fixed on every image. */
  lemma BlurredAdds(a: Grid<Byte>, b: Grid<Byte>, sum: Grid<Byte>, k: Gaussian, p: Pixel)
    requires k.Valid() && a.Keys == b.Keys == sum.Keys && forall q :: q in sum ==> sum[q] as int == a[q] as int + b[q] as int
    ensures Blurred(sum, k, p) == Blurred(a, k, p) + Blurred(b, k, p)
  {
    hide Gaussian.Weight, Gaussian.Valid, Terms;
    var f, g := Terms(a, k.size / 2, k.Weights(), p), Terms(b, k.size / 2, k.Weights(), p);
    var h := Terms(sum, k.size / 2, k.Weights(), p);
    forall i, j | 0 <= i < k.size && 0 <= j < k.size
      ensures h(i, j) == f(i, j) + g(i, j)
    {
      TermAdds(a, b, sum, k.size / 2, k.Weights(), p, i, j);
    }
    DoubleSumAdds(f, g, h, k.size, k.size);
  }

  lemma TermAdds(a: Grid<Byte>, b: Grid<Byte>, sum: Grid<Byte>, half: nat, weights: (int, int) -> real, p: Pixel, i: int, j: int)
    requires a.Keys == b.Keys == sum.Keys && forall q :: q in sum ==> sum[q] as int == a[q] as int + b[q] as int
    ensures Terms(sum, half, weights, p)(i, j) == Terms(a, half, weights, p)(i, j) + Terms(b, half, weights, p)(i, j)
  {
    var r, c := p.row + i - half, p.col + j - half;
    Distributes(At(a, r, c) as real, At(b, r, c) as real, weights(i, j), At(sum, r, c) as real);
  }

  lemma Distributes(x: real, y: real, w: real, sum: real)
    requires sum == x + y
    ensures sum * w == x * w + y * w
  {
  }

  function Below(rows: nat, p: Pixel): Pixel { Pixel(rows - 1 - p.row, p.col) }

  /** The image reflected top to bottom. */
  function UpsideDown<T>(rows: nat, g: Grid<T>): (t: Grid<T>)
    ensures forall p :: p in t <==> Below(rows, p) in g
    ensures forall p :: p in g ==> Below(rows, p) in t && t[Below(rows, p)] == g[p]
  {
    var t := map p | p in g :: Below(rows, p) := g[p];
    assert forall p :: Below(rows, Below(rows, p)) == p;
    t
  }

  /** The image reflected left to right. */
  function LeftRight<T>(cols: nat, g: Grid<T>): Grid<T> { Transposed(UpsideDown(cols, Transposed(g))) }

  lemma LeftRightAt<T>(cols: nat, g: Grid<T>, p: Pixel)
    requires p in g
    ensures Pixel(p.row, cols - 1 - p.col) in LeftRight(cols, g) && LeftRight(cols, g)[Pixel(p.row, cols - 1 - p.col)] == g[p]
  {
    assert Mirrored(Below(cols, Mirrored(p))) == Pixel(p.row, cols - 1 - p.col);
  }

  lemma AtUpsideDown(rows: nat, img: Grid<Byte>, r: int, c: int)
    ensures At(UpsideDown(rows, img), rows - 1 - r, c) == At(img, r, c)
  {
    assert Below(rows, Pixel(r, c)) == Pixel(rows - 1 - r, c) && Below(rows, Pixel(rows - 1 - r, c)) == Pixel(r, c);
  }

  lemma OddHalves(k: Gaussian)
    requires k.Valid()
    ensures k.size - 1 - k.Half() == k.Half()
  {
  }

  lemma TermsUpsideDown(rows: nat, img: Grid<Byte>, k: Gaussian, p: Pixel, x: int, y: int)
    requires k.Valid()
    ensures Terms(UpsideDown(rows, img), k.Half(), k.Weights(), Below(rows, p))(k.size - 1 - x, y) ==
            Terms(img, k.Half(), k.Weights(), p)(x, y)
  {
    OddHalves(k);
    WeightsAreMirrored(k, x, y);
    hide Gaussian.Weight, Gaussian.Valid, Gaussian.Half, UpsideDown, At;
    var r, c := p.row + x - k.Half(), p.col + y - k.Half();
    AtUpsideDown(rows, img, r, c);
    assert rows - 1 - p.row + (k.size - 1 - x) - k.Half() == rows - 1 - r;
  }

  lemma BlurredReflects(rows: nat, img: Grid<Byte>, k: Gaussian, p: Pixel)
    requires k.Valid()
    ensures Blurred(UpsideDown(rows, img), k, Below(rows, p)) == Blurred(img, k, p)
  {
    hide Gaussian.Weight, Terms, At, UpsideDown;
    var f := Terms(img, k.Half(), k.Weights(), p);
    var g := Terms(UpsideDown(rows, img), k.Half(), k.Weights(), Below(rows, p));
    forall x, y | 0 <= x < k.size && 0 <= y < k.size
      ensures g(k.size - 1 - x, y) == f(x, y)
    {
      TermsUpsideDown(rows, img, k, p, x, y);
    }
    DoubleSumReversedRows(f, g, k.size, k.size);
  }

  /** Blurring commutes with reflecting the image top to bottom. */
  lemma BlurReflectsRows(rows: nat, img: Grid<Byte>, k: Gaussian)
    requires k.Valid()
    ensures BlurImage(UpsideDown(rows, img), k) == UpsideDown(rows, BlurImage(img, k))
  {
    hide Gaussian.Weight, Terms, At;
    var turned, blurred := BlurImage(UpsideDown(rows, img), k), BlurImage(img, k);
    forall p | p in img
      ensures turned[Below(rows, p)] == blurred[p]
    {
      BlurredReflects(rows, img, k, p);
      hide Blurred;
    }
    hide BlurImage;
    forall p | p in turned
      ensures p in UpsideDown(rows, blurred) && turned[p] == UpsideDown(rows, blurred)[p]
    {
      assert Below(rows, Below(rows, p)) == p;
    }
  }

  /** And left to right. */
  lemma BlurReflectsColumns(cols: nat, img: Grid<Byte>, k: Gaussian)
    requires k.Valid()
    ensures BlurImage(LeftRight(cols, img), k) == LeftRight(cols, BlurImage(img, k))
  {
    BlurTransposes(UpsideDown(cols, Transposed(img)), k);
    BlurReflectsRows(cols, Transposed(img), k);
    BlurTransposes(img, k);
    hide BlurImage;
  }
}
