/** Non-maximum suppression, pixel by pixel. */
module Suppression {
  import opened Images

  /** The neighbours a gradient direction selects. Unmatched leaves both at the preset 255. */
  datatype Sector = Horizontal | Rising | Vertical | Falling | Unmatched

  /** The angle before the sign is removed. */
  function RawAngle(direction: real): real { (direction - 128.0) * 180.0 / 128.0 }

  function Folded(angle: real): real { if angle < 0.0 then angle + 180.0 else angle }

  function SectorOf(angle: real): Sector {
    if (0.0 <= angle && angle < 22.5) || (157.5 <= angle && angle <= 180.0) then Horizontal
    else if 22.5 <= angle && angle < 67.5 then Rising
    else if 67.5 <= angle && angle < 112.5 then Vertical
    else if 112.5 <= angle && angle < 157.5 then Falling
    else Unmatched
  }

  function Level(mag: Grid<real>, row: int, col: int): real {
    if Pixel(row, col) in mag then mag[Pixel(row, col)] else 0.0
  }

  /** neighbor_q once the direction has been looked at. */
  function NeighbourQ(mag: Grid<real>, angle: real, p: Pixel): real {
    match SectorOf(angle)
    case Horizontal => Level(mag, p.row, p.col + 1)
    case Rising => Level(mag, p.row + 1, p.col - 1)
    case Vertical => Level(mag, p.row + 1, p.col)
    case Falling => Level(mag, p.row - 1, p.col - 1)
    case Unmatched => 255.0
  }

  /** neighbor_r once the direction has been looked at. */
  function NeighbourR(mag: Grid<real>, angle: real, p: Pixel): real {
    match SectorOf(angle)
    case Horizontal => Level(mag, p.row, p.col - 1)
    case Rising => Level(mag, p.row - 1, p.col + 1)
    case Vertical => Level(mag, p.row - 1, p.col)
    case Falling => Level(mag, p.row + 1, p.col + 1)
    case Unmatched => 255.0
  }

  /**
   * The preset 255 survives exactly for directions outside 0..256. Normalised directions lie in 0..255, so one
   * of the four neighbour pairs is always selected.
   */
  lemma UnmatchedOnlyOutsideRange(direction: real)
    ensures SectorOf(Folded(RawAngle(direction))) == Unmatched <==> direction < 0.0 || direction > 256.0
  {
    var a := RawAngle(direction);
    assert a == (direction - 128.0) * 1.40625;
  }

  predicate IsMaximum(mag: Grid<real>, direction: real, p: Pixel) {
    var angle := Folded(RawAngle(direction));
    Level(mag, p.row, p.col) >= NeighbourQ(mag, angle, p) && Level(mag, p.row, p.col) >= NeighbourR(mag, angle, p)
  }

  /** The level the loop body stores at an interior pixel. */
  function Kept(mag: Grid<real>, dir: Grid<real>, toByte: real -> Byte, p: Pixel): Byte {
    if IsMaximum(mag, Level(dir, p.row, p.col), p) then toByte(Level(mag, p.row, p.col)) else 0
  }

  /** static_cast<uint8_t> of a float: truncation where the value fits, unspecified otherwise. */
  ghost predicate IsByteCast(toByte: real -> Byte) {
    forall v: real :: 0.0 <= v < 256.0 ==> toByte(v) == v.Floor
  }

  function SuppressedImage(rows: nat, cols: nat, mag: Grid<real>, dir: Grid<real>, toByte: real -> Byte): (g: Grid<Byte>)
    ensures g.Keys == mag.Keys
  {
    map p | p in mag :: if Interior(rows, cols, p) then Kept(mag, dir, toByte, p) else 0
  }

  /** The edge matrix after the loop over the interior pixels: the border keeps what it held. */
  function SuppressedInside(rows: nat, cols: nat, mag: Grid<real>, dir: Grid<real>, toByte: real -> Byte, edges: Grid<Byte>):
    (g: Grid<Byte>)
    ensures g.Keys == edges.Keys
  {
    map p | p in edges :: if Interior(rows, cols, p) then Kept(mag, dir, toByte, p) else edges[p]
  }
}
