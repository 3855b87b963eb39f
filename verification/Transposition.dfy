/** Blur followed by gradient magnitude treats rows and columns alike. */
module Transposition {
  import opened Images
  import opened Sums
  import opened Blur
  import opened Sobel

  function Mirrored(p: Pixel): Pixel { Pixel(p.col, p.row) }

  /** The image reflected in its main diagonal. */
  function Transposed<T>(g: Grid<T>): (t: Grid<T>)
    ensures forall p :: p in t <==> Mirrored(p) in g
    ensures forall p :: p in g ==> Mirrored(p) in t && t[Mirrored(p)] == g[p]
  {
    var t := map p | p in g :: Mirrored(p) := g[p];
    assert forall p :: Mirrored(Mirrored(p)) == p;
    t
  }

  lemma AtTransposed(img: Grid<Byte>, r: int, c: int)
    ensures At(Transposed(img), c, r) == At(img, r, c)
  {
    assert Mirrored(Pixel(r, c)) == Pixel(c, r) && Mirrored(Pixel(c, r)) == Pixel(r, c);
  }

  lemma TermsTransposed(img: Grid<Byte>, k: Gaussian, p: Pixel, x: int, y: int)
    requires k.Valid()
    ensures Terms(Transposed(img), k.Half(), k.Weights(), Mirrored(p))(y, x) == Terms(img, k.Half(), k.Weights(), p)(x, y)
  {
    AtTransposed(img, p.row + x - k.Half(), p.col + y - k.Half());
    k.WeightsAreSymmetric(x, y);
  }

  /** The blur commutes with transposing, because its kernel is symmetric and sums do not depend on their order. */
  lemma BlurTransposes(img: Grid<Byte>, k: Gaussian)
    requires k.Valid()
    ensures BlurImage(Transposed(img), k) == Transposed(BlurImage(img, k))
  {
    var turned, blurred := BlurImage(Transposed(img), k), BlurImage(img, k);
    forall p | p in img
      ensures turned[Mirrored(p)] == blurred[p]
    {
      var f := Terms(img, k.Half(), k.Weights(), p);
      var g := Terms(Transposed(img), k.Half(), k.Weights(), Mirrored(p));
      forall x, y | 0 <= x < k.size && 0 <= y < k.size
        ensures g(y, x) == f(x, y)
      {
        TermsTransposed(img, k, p, x, y);
      }
      DoubleSumTransposed(f, g, k.size, k.size);
    }
    forall p | p in turned
      ensures p in Transposed(blurred) && turned[p] == Transposed(blurred)[p]
    {
      assert Mirrored(Mirrored(p)) == p;
    }
  }

  /** Transposing exchanges the two gradients and their signs. */
  lemma GradientsTranspose(img: Grid<Byte>, p: Pixel)
    ensures Gx(Transposed(img), Mirrored(p)) == -Gy(img, p)
    ensures Gy(Transposed(img), Mirrored(p)) == -Gx(img, p)
  {
    forall dr, dc
      ensures Near(Transposed(img), Mirrored(p), dc, dr) == Near(img, p, dr, dc)
    {
      AtTransposed(img, p.row + dr, p.col + dc);
    }
  }

  lemma SquaredMagnitudeTransposes(img: Grid<Byte>, p: Pixel)
    ensures SquaredMagnitude(Transposed(img), Mirrored(p)) == SquaredMagnitude(img, p)
  {
    hide Gx, Gy;
    GradientsTranspose(img, p);
    SquaresOfOpposites(Gx(img, p), Gy(img, p));
  }

  /** The magnitude field of the transposed image is the transposed magnitude field. */
  lemma MagnitudesTranspose(rows: nat, cols: nat, img: Grid<Byte>, k: Gaussian, lib: GradientLibrary)
    requires k.Valid()
    ensures MagnitudeImage(cols, rows, BlurImage(Transposed(img), k), lib) ==
            Transposed(MagnitudeImage(rows, cols, BlurImage(img, k), lib))
  {
    hide SquaredMagnitude, BlurImage;
    BlurTransposes(img, k);
    var blurred := BlurImage(img, k);
    var turned := MagnitudeImage(cols, rows, Transposed(blurred), lib);
    var mag := MagnitudeImage(rows, cols, blurred, lib);
    forall p | p in blurred
      ensures turned[Mirrored(p)] == mag[p]
    {
      SquaredMagnitudeTransposes(blurred, p);
    }
    forall p | p in turned
      ensures p in Transposed(mag) && turned[p] == Transposed(mag)[p]
    {
      assert Mirrored(Mirrored(p)) == p;
    }
  }

  lemma SquaresOfOpposites(x: int, y: int)
    ensures (-y) * (-y) + (-x) * (-x) == x * x + y * y
  {
  }
}
