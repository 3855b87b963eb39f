/**
 * Linking and hysteresis as a function of the edge image, for any order of visiting the pixels.
 *
 * A visit that indexes a matrix outside its frame is undefined in C++; here it is the outcome OutOfBounds.
 */
module Hysteresis {
  import opened Images

  /** The strong-edge mask and the edge matrix while the pass runs. */
  datatype Links = Links(strong: set<Pixel>, edges: Grid<Byte>)

  /** The result of a call, with the number of activations of checkContours it took. */
  datatype Outcome = OutOfBounds | Done(links: Links, calls: nat)

  /** The two thresholds and the masks they cut out of an image. */
  datatype Thresholds = Thresholds(low: real, high: real) {
    function Strong(img: Grid<Byte>): set<Pixel> { set p | p in img && img[p] as real >= high }

    function Weak(img: Grid<Byte>): set<Pixel> { set p | p in img && img[p] as real >= low }

    /** Pixels on the first row or column that are neither clearly strong nor clearly out. */
    ghost predicate SafeBorder(img: Grid<Byte>) {
      forall p :: p in img && (p.row == 0 || p.col == 0) && p in Weak(img) ==> p in Strong(img)
    }

    /** What the pass computes: the pixels above either threshold keep their level, the others become 0. */
    function Thresholded(img: Grid<Byte>): (g: Grid<Byte>)
      ensures g.Keys == img.Keys
    {
      map p | p in img :: if p in Strong(img) || p in Weak(img) then img[p] else 0
    }
  }

  function UpLeft(p: Pixel): Pixel { Pixel(p.row - 1, p.col - 1) }

  /**
   * checkContours. Of the four positions its loops enumerate, only the up-left one can differ from p in both
   * coordinates, and it is skipped when it shares a coordinate with the previous pixel.
   */
  function Check(rows: nat, cols: nat, weak: set<Pixel>, s: Links, p: Pixel, prev: Pixel): Outcome
    requires IsImage(rows, cols, s.edges)
    decreases p.row + 1
  {
    if !InFrame(rows, cols, p) then OutOfBounds
    else if p in s.strong then Done(s, 1)
    else if p !in weak then Done(s.(edges := s.edges[p := 0]), 1)
    else
      var s' := s.(strong := s.strong + {p});
      var q := UpLeft(p);
      if q.row == prev.row || q.col == prev.col then Done(s', 1)
      else
        match Check(rows, cols, weak, s', q, p)
        case OutOfBounds => OutOfBounds
        case Done(links, calls) => Done(links, calls + 1)
  }

  /** One iteration of the driver: strong pixels are passed over. */
  function Visit(rows: nat, cols: nat, weak: set<Pixel>, s: Links, p: Pixel): Outcome
    requires IsImage(rows, cols, s.edges)
  {
    if p in s.strong then Done(s, 0) else Check(rows, cols, weak, s, p, p)
  }

  /** The driver visiting the pixels of `order`, first to last; calls are added up. */
  function Sweep(rows: nat, cols: nat, weak: set<Pixel>, s: Links, order: seq<Pixel>): (o: Outcome)
    requires IsImage(rows, cols, s.edges)
    ensures o.Done? ==> IsImage(rows, cols, o.links.edges)
  {
    if order == [] then Done(s, 0)
    else
      match Sweep(rows, cols, weak, s, order[..|order| - 1])
      case OutOfBounds => OutOfBounds
      case Done(links, calls) =>
        CheckKeepsFrame(rows, cols, weak, links, order[|order| - 1], order[|order| - 1]);
        match Visit(rows, cols, weak, links, order[|order| - 1])
        case OutOfBounds => OutOfBounds
        case Done(links', more) => Done(links', calls + more)
  }

  lemma {:induction false} CheckKeepsFrame(rows: nat, cols: nat, weak: set<Pixel>, s: Links, p: Pixel, prev: Pixel)
    requires IsImage(rows, cols, s.edges)
    ensures Check(rows, cols, weak, s, p, prev).Done? ==> Check(rows, cols, weak, s, p, prev).links.edges.Keys == s.edges.Keys
    decreases p.row + 1
  {
    if InFrame(rows, cols, p) && p !in s.strong && p in weak {
      CheckKeepsFrame(rows, cols, weak, s.(strong := s.strong + {p}), UpLeft(p), p);
    }
  }

  /** The two masks at the start of the pass over img. */
  function Start(img: Grid<Byte>, t: Thresholds): Links { Links(t.Strong(img), img) }

  /** What holds between visits: nothing is marked or cleared that the final image would not mark or clear. */
  ghost predicate Partial(img: Grid<Byte>, t: Thresholds, s: Links) {
    && s.edges.Keys == img.Keys
    && t.Strong(img) <= s.strong <= t.Strong(img) + t.Weak(img)
    && (forall p :: p in img ==> s.edges[p] == img[p] || s.edges[p] == t.Thresholded(img)[p])
  }

  /** The pixel has reached its final mark and level. */
  ghost predicate Settled(img: Grid<Byte>, t: Thresholds, s: Links, p: Pixel) {
    if p in t.Strong(img) + t.Weak(img) then p in s.strong
    else p in s.edges && s.edges[p] == 0
  }

  /** The previous pixel the driver and the recursion pass down. */
  predicate FromDriver(p: Pixel, prev: Pixel) { prev == p || p == UpLeft(prev) }

  /** With a safe border a call stays inside the frame, settles its pixel and unsettles none. */
  lemma {:induction false} CheckSettles(rows: nat, cols: nat, img: Grid<Byte>, t: Thresholds, s: Links, p: Pixel, prev: Pixel)
    requires IsImage(rows, cols, img) && t.SafeBorder(img) && Partial(img, t, s)
    requires p in img && FromDriver(p, prev)
    ensures var o := Check(rows, cols, t.Weak(img), s, p, prev);
            && o.Done? && Partial(img, t, o.links) && Settled(img, t, o.links, p)
            && forall q :: Settled(img, t, s, q) ==> Settled(img, t, o.links, q)
    decreases p.row + 1
  {
    if p !in s.strong && p in t.Weak(img) {
      assert p !in t.Strong(img);
      var s' := s.(strong := s.strong + {p});
      assert Partial(img, t, s');
      assert forall q :: Settled(img, t, s, q) ==> Settled(img, t, s', q);
      CheckSettles(rows, cols, img, t, s', UpLeft(p), p);
    }
  }

  /** The marks a call adds start at its own pixel, and reaching the border from a weak pixel leaves the frame. */
  lemma {:induction false} UnsafePixelStaysUnmarked(
    rows: nat, cols: nat, img: Grid<Byte>, weak: set<Pixel>, s: Links, p: Pixel, prev: Pixel, b: Pixel)
    requires IsImage(rows, cols, img) && s.edges.Keys == img.Keys
    requires b in weak && b !in s.strong && (b.row == 0 || b.col == 0)
    requires FromDriver(p, prev)
    ensures var o := Check(rows, cols, weak, s, p, prev);
            (o.Done? ==> p != b && b !in o.links.strong)
    decreases p.row + 1
  {
    if InFrame(rows, cols, p) && p !in s.strong && p in weak {
      if p == b {
        assert !InFrame(rows, cols, UpLeft(p));
      } else {
        UnsafePixelStaysUnmarked(rows, cols, img, weak, s.(strong := s.strong + {p}), UpLeft(p), p, b);
      }
    }
  }

  lemma {:induction false} SweepSettles(rows: nat, cols: nat, img: Grid<Byte>, t: Thresholds, order: seq<Pixel>)
    requires IsImage(rows, cols, img) && t.SafeBorder(img)
    requires forall p :: p in order ==> p in img
    ensures var o := Sweep(rows, cols, t.Weak(img), Start(img, t), order);
            && o.Done? && Partial(img, t, o.links)
            && forall p :: p in order ==> Settled(img, t, o.links, p)
  {
    if order != [] {
      var before, p := order[..|order| - 1], order[|order| - 1];
      assert order == before + [p];
      SweepSettles(rows, cols, img, t, before);
      var s := Sweep(rows, cols, t.Weak(img), Start(img, t), before).links;
      CheckSettles(rows, cols, img, t, s, p, p);
    }
  }

  /** The order in which every pixel of the frame is visited does not matter: the pass is a plain threshold. */
  lemma AnyOrderThresholds(rows: nat, cols: nat, img: Grid<Byte>, t: Thresholds, order: seq<Pixel>)
    requires IsImage(rows, cols, img) && t.SafeBorder(img)
    requires forall p :: p in order <==> p in img
    ensures var o := Sweep(rows, cols, t.Weak(img), Start(img, t), order);
            o.Done? && o.links == Links(t.Strong(img) + t.Weak(img), t.Thresholded(img))
  {
    SweepSettles(rows, cols, img, t, order);
    var s := Sweep(rows, cols, t.Weak(img), Start(img, t), order).links;
    forall p | p in img
      ensures s.edges[p] == t.Thresholded(img)[p]
    {
      assert Settled(img, t, s, p);
    }
    assert s.strong == t.Strong(img) + t.Weak(img) by {
      forall p | p in t.Strong(img) + t.Weak(img)
        ensures p in s.strong
      {
        assert Settled(img, t, s, p);
      }
    }
    assert s.edges == t.Thresholded(img);
  }

  lemma {:induction false} SweepFaults(rows: nat, cols: nat, img: Grid<Byte>, t: Thresholds, order: seq<Pixel>, b: Pixel)
    requires IsImage(rows, cols, img)
    requires b in img && (b.row == 0 || b.col == 0) && b in t.Weak(img) && b !in t.Strong(img)
    ensures var o := Sweep(rows, cols, t.Weak(img), Start(img, t), order);
            o.Done? ==> b !in order && b !in o.links.strong
  {
    if order != [] {
      var before, p := order[..|order| - 1], order[|order| - 1];
      assert order == before + [p];
      SweepFaults(rows, cols, img, t, before, b);
      var o := Sweep(rows, cols, t.Weak(img), Start(img, t), before);
      if o.Done? && p !in o.links.strong {
        UnsafePixelStaysUnmarked(rows, cols, img, t.Weak(img), o.links, p, p, b);
      }
    }
  }

  /**
   * A pass over the whole frame stays inside the matrices exactly when no pixel of the first row or column lies
   * between the thresholds, whatever the order of the visits.
   */
  lemma InBoundsIffSafeBorder(rows: nat, cols: nat, img: Grid<Byte>, t: Thresholds, order: seq<Pixel>)
    requires IsImage(rows, cols, img)
    requires forall p :: p in order <==> p in img
    ensures Sweep(rows, cols, t.Weak(img), Start(img, t), order).Done? <==> t.SafeBorder(img)
  {
    if t.SafeBorder(img) {
      AnyOrderThresholds(rows, cols, img, t, order);
    } else {
      var b :| b in img && (b.row == 0 || b.col == 0) && b in t.Weak(img) && b !in t.Strong(img);
      SweepFaults(rows, cols, img, t, order, b);
    }
  }

  /** Every pixel comes after its up-left neighbour, as in raster order. */
  ghost predicate UpLeftFirst(rows: nat, cols: nat, order: seq<Pixel>) {
    forall i :: 0 <= i < |order| && InFrame(rows, cols, UpLeft(order[i])) ==> UpLeft(order[i]) in order[..i]
  }

  /**
   * When up-left neighbours come first, each call the driver makes leads to at most one nested call, and that one
   * returns at once: it meets a pixel that is settled already.
   */
  lemma {:induction false} AtMostOneNestedCall(rows: nat, cols: nat, img: Grid<Byte>, t: Thresholds, order: seq<Pixel>)
    requires IsImage(rows, cols, img) && t.SafeBorder(img)
    requires (forall p :: p in order ==> p in img) && UpLeftFirst(rows, cols, order)
    requires order != []
    ensures var before := Sweep(rows, cols, t.Weak(img), Start(img, t), order[..|order| - 1]);
            before.Done? && var o := Visit(rows, cols, t.Weak(img), before.links, order[|order| - 1]);
            o.Done? && o.calls <= 2
  {
    var n := |order| - 1;
    var before, p := order[..n], order[n];
    SweepSettles(rows, cols, img, t, before);
    var s := Sweep(rows, cols, t.Weak(img), Start(img, t), before).links;
    CheckSettles(rows, cols, img, t, s, p, p);
    if p !in s.strong && p in t.Weak(img) {
      var s' := s.(strong := s.strong + {p});
      assert Settled(img, t, s, UpLeft(p));
      assert Check(rows, cols, t.Weak(img), s', UpLeft(p), p).calls == 1;
    }
  }

  /** The pixels the driver's loops have visited when they reach row r, column c. */
  function RasterUpTo(cols: nat, r: nat, c: nat): seq<Pixel>
    requires c <= cols
    decreases r, c
  {
    if c > 0 then RasterUpTo(cols, r, c - 1) + [Pixel(r, c - 1)]
    else if r > 0 then RasterUpTo(cols, r - 1, cols)
    else []
  }

  lemma {:induction false} RasterVisits(rows: nat, cols: nat, r: nat, c: nat, p: Pixel)
    requires c <= cols && (r < rows || (r == rows && c == 0))
    ensures p in RasterUpTo(cols, r, c) <==> InFrame(rows, cols, p) && (p.row < r || (p.row == r && p.col < c))
    decreases r, c
  {
    if c > 0 {
      RasterVisits(rows, cols, r, c - 1, p);
    } else if r > 0 {
      RasterVisits(rows, cols, r - 1, cols, p);
    }
  }

  lemma UpLeftFirstExtends(rows: nat, cols: nat, before: seq<Pixel>, p: Pixel)
    requires UpLeftFirst(rows, cols, before)
    requires InFrame(rows, cols, UpLeft(p)) ==> UpLeft(p) in before
    ensures UpLeftFirst(rows, cols, before + [p])
  {
    var order := before + [p];
    forall i | 0 <= i < |order| && InFrame(rows, cols, UpLeft(order[i]))
      ensures UpLeft(order[i]) in order[..i]
    {
      if i < |before| {
        assert order[..i] == before[..i];
      } else {
        assert order[..i] == before;
      }
    }
  }

  lemma {:induction false} RasterIsUpLeftFirst(rows: nat, cols: nat, r: nat, c: nat)
    requires c <= cols && (r < rows || (r == rows && c == 0))
    ensures UpLeftFirst(rows, cols, RasterUpTo(cols, r, c))
    decreases r, c
  {
    if c > 0 {
      RasterIsUpLeftFirst(rows, cols, r, c - 1);
      RasterVisits(rows, cols, r, c - 1, UpLeft(Pixel(r, c - 1)));
      UpLeftFirstExtends(rows, cols, RasterUpTo(cols, r, c - 1), Pixel(r, c - 1));
    } else if r > 0 {
      RasterIsUpLeftFirst(rows, cols, r - 1, cols);
    }
  }

  /** In raster order checkContours is activated at most twice for each pixel visited. */
  lemma {:induction false} RasterCallCount(rows: nat, cols: nat, img: Grid<Byte>, t: Thresholds, order: seq<Pixel>)
    requires IsImage(rows, cols, img) && t.SafeBorder(img)
    requires (forall p :: p in order ==> p in img) && UpLeftFirst(rows, cols, order)
    ensures var o := Sweep(rows, cols, t.Weak(img), Start(img, t), order);
            o.Done? && o.calls <= 2 * |order|
  {
    if order != [] {
      var n := |order| - 1;
      assert UpLeftFirst(rows, cols, order[..n]) by {
        forall i | 0 <= i < n && InFrame(rows, cols, UpLeft(order[..n][i]))
          ensures UpLeft(order[..n][i]) in order[..n][..i]
        {
          assert order[..n][..i] == order[..i];
        }
      }
      RasterCallCount(rows, cols, img, t, order[..n]);
      AtMostOneNestedCall(rows, cols, img, t, order);
    }
  }

  /** The raster sweep starts from the cut masks. */
  lemma RasterStarts(rows: nat, cols: nat, img: Grid<Byte>, t: Thresholds)
    requires IsImage(rows, cols, img)
    ensures Sweep(rows, cols, t.Weak(img), Start(img, t), RasterUpTo(cols, 0, 0)) == Done(Start(img, t), 0)
  {
  }

  /** One iteration of the driver's inner loop. */
  lemma RasterStep(rows: nat, cols: nat, img: Grid<Byte>, t: Thresholds, r: nat, c: nat)
    requires IsImage(rows, cols, img) && t.SafeBorder(img) && r < rows && c < cols
    ensures var now := Sweep(rows, cols, t.Weak(img), Start(img, t), RasterUpTo(cols, r, c));
            var next := Sweep(rows, cols, t.Weak(img), Start(img, t), RasterUpTo(cols, r, c + 1));
            && now.Done? && next.Done?
            && (Pixel(r, c) in now.links.strong ==> next.links == now.links)
            && (Pixel(r, c) !in now.links.strong ==>
                  var o := Check(rows, cols, t.Weak(img), now.links, Pixel(r, c), Pixel(r, c)); o.Done? && next.links == o.links)
  {
    var before, p := RasterUpTo(cols, r, c), Pixel(r, c);
    var order := RasterUpTo(cols, r, c + 1);
    assert order == before + [p] && order[..|before|] == before;
    forall q | q in order
      ensures q in img
    {
      RasterVisits(rows, cols, r, c, q);
    }
    SweepSettles(rows, cols, img, t, before);
    SweepSettles(rows, cols, img, t, order);
  }

  lemma RowEnds(cols: nat, r: nat)
    ensures RasterUpTo(cols, r + 1, 0) == RasterUpTo(cols, r, cols)
  {
  }

  /** The raster sweep of the whole frame. */
  lemma RasterThresholds(rows: nat, cols: nat, img: Grid<Byte>, t: Thresholds)
    requires IsImage(rows, cols, img) && t.SafeBorder(img)
    ensures var o := Sweep(rows, cols, t.Weak(img), Start(img, t), RasterUpTo(cols, rows, 0));
            && o.Done? && o.links == Links(t.Strong(img) + t.Weak(img), t.Thresholded(img))
            && o.calls <= 2 * |RasterUpTo(cols, rows, 0)|
  {
    var order := RasterUpTo(cols, rows, 0);
    forall q
      ensures q in order <==> q in img
    {
      RasterVisits(rows, cols, rows, 0, q);
    }
    AnyOrderThresholds(rows, cols, img, t, order);
    RasterIsUpLeftFirst(rows, cols, rows, 0);
    RasterCallCount(rows, cols, img, t, order);
  }

  // ---- The documented rule: weak edges count only if they are connected to strong ones. ----

  predicate Adjacent(p: Pixel, q: Pixel) {
    p != q && -1 <= p.row - q.row <= 1 && -1 <= p.col - q.col <= 1
  }

  /** A chain of 8-connected weak pixels that starts at a strong one. */
  ghost predicate IsChain(strong: set<Pixel>, weak: set<Pixel>, chain: seq<Pixel>) {
    && chain != [] && chain[0] in strong
    && (forall i :: 1 <= i < |chain| ==> chain[i] in weak && Adjacent(chain[i - 1], chain[i]))
  }

  ghost predicate Linked(strong: set<Pixel>, weak: set<Pixel>, p: Pixel) {
    exists chain: seq<Pixel> :: IsChain(strong, weak, chain) && chain[|chain| - 1] == p
  }

  /** A non-empty set of weak, not strong pixels that no other weak or strong pixel touches. */
  ghost predicate IsIsland(strong: set<Pixel>, weak: set<Pixel>, island: set<Pixel>) {
    && island != {} && island <= weak - strong
    && (forall p, q :: p in island && q in strong + weak && Adjacent(q, p) ==> q in island)
  }

  lemma {:induction false} ChainAvoidsIsland(strong: set<Pixel>, weak: set<Pixel>, island: set<Pixel>, chain: seq<Pixel>)
    requires IsIsland(strong, weak, island) && IsChain(strong, weak, chain)
    ensures chain[|chain| - 1] !in island
  {
    if |chain| > 1 {
      ChainAvoidsIsland(strong, weak, island, chain[..|chain| - 1]);
      var p, q := chain[|chain| - 1], chain[|chain| - 2];
      assert chain[..|chain| - 1][|chain| - 2] == q;
      assert q in strong + weak;
      assert Adjacent(q, p);
    }
  }

  lemma IslandIsUnlinked(strong: set<Pixel>, weak: set<Pixel>, island: set<Pixel>, p: Pixel)
    requires IsIsland(strong, weak, island) && p in island
    ensures !Linked(strong, weak, p)
  {
    forall chain: seq<Pixel> | IsChain(strong, weak, chain)
      ensures chain[|chain| - 1] != p
    {
      ChainAvoidsIsland(strong, weak, island, chain);
    }
  }

  lemma LinkExtends(strong: set<Pixel>, weak: set<Pixel>, q: Pixel, p: Pixel)
    requires Linked(strong, weak, q) && p in weak && Adjacent(q, p)
    ensures Linked(strong, weak, p)
  {
    var chain: seq<Pixel> :| IsChain(strong, weak, chain) && chain[|chain| - 1] == q;
    assert IsChain(strong, weak, chain + [p]);
    assert (chain + [p])[|chain + [p]| - 1] == p;
  }

  lemma StrongIsLinked(strong: set<Pixel>, weak: set<Pixel>, p: Pixel)
    requires p in strong
    ensures Linked(strong, weak, p)
  {
    assert IsChain(strong, weak, [p]) && [p][|[p]| - 1] == p;
  }

  /**
   * The pixels the pass keeps contain the documented ones, and are exactly the documented ones if and only if the
   * weak pixels contain no island.
   */
  lemma KeepsDocumentedEdges(strong: set<Pixel>, weak: set<Pixel>)
    ensures forall p :: Linked(strong, weak, p) ==> p in strong + weak
    ensures (forall p :: p in strong + weak ==> Linked(strong, weak, p))
            <==> !exists island: set<Pixel> :: IsIsland(strong, weak, island)
  {
    forall p | Linked(strong, weak, p)
      ensures p in strong + weak
    {
      var chain: seq<Pixel> :| IsChain(strong, weak, chain) && chain[|chain| - 1] == p;
    }
    var cut := set p | p in weak && !Linked(strong, weak, p);
    UnlinkedIsClosed(strong, weak, cut);
    if cut != {} {
      assert IsIsland(strong, weak, cut);
      var p :| p in cut;
      assert p in strong + weak && !Linked(strong, weak, p);
    } else {
      forall p | p in strong + weak
        ensures Linked(strong, weak, p)
      {
        if p in strong {
          StrongIsLinked(strong, weak, p);
        }
      }
      forall island: set<Pixel>
        ensures !IsIsland(strong, weak, island)
      {
        forall p | p in island && IsIsland(strong, weak, island)
          ensures p in cut
        {
          IslandIsUnlinked(strong, weak, island, p);
        }
      }
    }
  }

  lemma UnlinkedIsClosed(strong: set<Pixel>, weak: set<Pixel>, cut: set<Pixel>)
    requires forall p :: p in cut <==> p in weak && !Linked(strong, weak, p)
    ensures cut <= weak - strong
    ensures forall p, q :: p in cut && q in strong + weak && Adjacent(q, p) ==> q in cut
  {
    forall p | p in cut
      ensures p !in strong
    {
      if p in strong {
        StrongIsLinked(strong, weak, p);
      }
    }
    forall p, q | p in cut && q in strong + weak && Adjacent(q, p)
      ensures q in cut
    {
      if q in strong {
        StrongIsLinked(strong, weak, q);
      }
      if Linked(strong, weak, q) {
        LinkExtends(strong, weak, q, p);
      }
    }
  }

  /**
   * The pass against the documented rule: it keeps every documented edge, and nothing else if and only if the weak
   * pixels contain no island.
   */
  lemma PassAgainstDocumentedRule(rows: nat, cols: nat, img: Grid<Byte>, t: Thresholds, order: seq<Pixel>)
    requires IsImage(rows, cols, img) && t.SafeBorder(img)
    requires forall p :: p in order <==> p in img
    ensures var o := Sweep(rows, cols, t.Weak(img), Start(img, t), order);
            && o.Done?
            && (forall p :: Linked(t.Strong(img), t.Weak(img), p) ==> p in o.links.strong && o.links.edges[p] == img[p])
            && ((forall p :: p in o.links.strong ==> Linked(t.Strong(img), t.Weak(img), p))
                <==> !exists island: set<Pixel> :: IsIsland(t.Strong(img), t.Weak(img), island))
  {
    AnyOrderThresholds(rows, cols, img, t, order);
    KeepsDocumentedEdges(t.Strong(img), t.Weak(img));
    hide Sweep, Linked, IsIsland;
  }

  /** A 3x3 image whose centre is weak for the thresholds 50 and 150, with nothing around it. */
  const LONE: Grid<Byte> := map[
    Pixel(0, 0) := 0, Pixel(0, 1) := 0, Pixel(0, 2) := 0,
    Pixel(1, 0) := 0, Pixel(1, 1) := 100, Pixel(1, 2) := 0,
    Pixel(2, 0) := 0, Pixel(2, 1) := 0, Pixel(2, 2) := 0]

  /** An image on which the pass keeps a pixel that the documented rule would clear. */
  lemma DocumentedRuleNotMet()
    ensures var t := Thresholds(50.0, 150.0);
            var o := Sweep(3, 3, t.Weak(LONE), Start(LONE, t), RasterUpTo(3, 3, 0));
            IsImage(3, 3, LONE) && o.Done? && o.links.edges[Pixel(1, 1)] == 100 && !Linked(t.Strong(LONE), t.Weak(LONE), Pixel(1, 1))
  {
    var t := Thresholds(50.0, 150.0);
    assert IsImage(3, 3, LONE);
    assert IsIsland(t.Strong(LONE), t.Weak(LONE), {Pixel(1, 1)}) by {
      assert forall p :: p in t.Weak(LONE) ==> p == Pixel(1, 1);
    }
    IslandIsUnlinked(t.Strong(LONE), t.Weak(LONE), {Pixel(1, 1)}, Pixel(1, 1));
    hide Sweep, RasterUpTo;
    RasterThresholds(3, 3, LONE, t);
  }
}
