/** Pixels, whole-image values and the view of an in-place matrix as such a value. */
module Images {

  datatype Pixel = Pixel(row: int, col: int)

  /** An 8-bit grey level, the element type of the image matrices. */
  type Byte = v: int | 0 <= v < 256

  /** An image as a value: one entry for each pixel of the frame. */
  type Grid<T> = map<Pixel, T>

  predicate InFrame(rows: nat, cols: nat, p: Pixel) {
    0 <= p.row < rows && 0 <= p.col < cols
  }

  predicate Interior(rows: nat, cols: nat, p: Pixel) {
    1 <= p.row < rows - 1 && 1 <= p.col < cols - 1
  }

  ghost predicate IsImage<T>(rows: nat, cols: nat, g: Grid<T>) {
    forall p :: p in g <==> InFrame(rows, cols, p)
  }

  /** The matrix holds the image. */
  ghost predicate Shows<T>(a: array2<T>, g: Grid<T>)
    reads a
  {
    && IsImage(a.Length0, a.Length1, g)
    && forall r, c :: 0 <= r < a.Length0 && 0 <= c < a.Length1 ==> Pixel(r, c) in g && g[Pixel(r, c)] == a[r, c]
  }

  lemma ShowsIsView<T>(a: array2<T>, g: Grid<T>)
    requires Shows(a, g)
    ensures View(a) == g
  {
    assert View(a).Keys == g.Keys;
    forall p | p in g
      ensures View(a)[p] == g[p]
    {
      assert p == Pixel(p.row, p.col);
    }
  }

  /** The contents of a matrix. */
  function View<T>(a: array2<T>): (g: Grid<T>)
    reads a
    ensures Shows(a, g)
  {
    var g := map r, c | 0 <= r < a.Length0 && 0 <= c < a.Length1 :: Pixel(r, c) := a[r, c];
    assert forall p :: InFrame(a.Length0, a.Length1, p) ==> p == Pixel(p.row, p.col);
    g
  }

  /** The pixels at which a mask matrix is set. */
  function Marked(a: array2<bool>): (s: set<Pixel>)
    reads a
    ensures forall p :: p in s <==> InFrame(a.Length0, a.Length1, p) && a[p.row, p.col]
  {
    var s := set r, c | 0 <= r < a.Length0 && 0 <= c < a.Length1 && a[r, c] :: Pixel(r, c);
    assert forall p :: InFrame(a.Length0, a.Length1, p) ==> p == Pixel(p.row, p.col);
    s
  }

  /** The grey level of a pixel of the zero-padded image. */
  function At(img: Grid<Byte>, row: int, col: int): Byte {
    if Pixel(row, col) in img then img[Pixel(row, col)] else 0
  }
}
