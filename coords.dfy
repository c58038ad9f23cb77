/**
 * Board points, stone colours, the two-letter SGF coordinate encoding and the
 * rotation between the logical board and the board as displayed (app.js:96-166).
 *
 * Strings are sequences of UTF-16 code units; the model's characters stand for
 * code units of the Basic Multilingual Plane.
 */
module Coords {
  import opened Wrappers

  datatype Color = Black | White

  /** What one intersection holds: `null`, "B" or "W" in the source. */
  datatype Cell = Empty | Stone(color: Color)

  /** A board intersection, 0-based from the top-left corner. */
  datatype Point = Pt(x: int, y: int)

  /** The code unit of 'a', the origin of both coordinate letters. */
  const FirstLetter: int := 97

  function Opponent(c: Color): (o: Color)
    ensures o != c
  {
    if c == Black then White else Black
  }

  predicate InBounds(p: Point, size: int) {
    0 <= p.x < size && 0 <= p.y < size
  }

  /** A code unit of the Basic Multilingual Plane that is not a surrogate. */
  predicate IsCodeUnit(v: int) {
    0 <= v < 0xD800 || 0xE000 <= v < 0x1_0000
  }

  /** Points whose coordinates String.fromCharCode maps to single ordinary code units. */
  predicate Encodable(p: Point) {
    IsCodeUnit(FirstLetter + p.x) && IsCodeUnit(FirstLetter + p.y)
  }

  /**
   * coordToPoint: the first two code units, each less 'a'; no point when the
   * text is shorter than two units or either axis would be negative.
   */
  function CoordToPoint(coord: string): (r: Option<Point>)
    ensures r.Some? ==> 0 <= r.value.x && 0 <= r.value.y
  {
    if |coord| < 2 then None
    else
      var x := coord[0] as int - FirstLetter;
      var y := coord[1] as int - FirstLetter;
      if x < 0 || y < 0 then None else Some(Pt(x, y))
  }

  /** pointToCoord: one letter per axis, counted from 'a'. */
  function PointToCoord(p: Point): (s: string)
    requires Encodable(p)
    ensures |s| == 2
  {
    [(FirstLetter + p.x) as char, (FirstLetter + p.y) as char]
  }

  /** A coordinate yields no point exactly when it is too short or an axis letter lies below 'a'. */
  lemma CoordToPointDefined(coord: string)
    ensures CoordToPoint(coord).None? <==>
              |coord| < 2 || coord[0] as int < FirstLetter || coord[1] as int < FirstLetter
  {
  }

  /** Decoding an encoded point gives the point back. */
  lemma CoordRoundTrip(p: Point)
    requires 0 <= p.x && 0 <= p.y && Encodable(p)
    ensures CoordToPoint(PointToCoord(p)) == Some(p)
  {
  }

  /** Encoding a decoded point gives back the two code units it was read from. */
  lemma PointRoundTrip(coord: string)
    requires CoordToPoint(coord).Some?
    requires coord[0] as int < 0x1_0000 && coord[1] as int < 0x1_0000
    ensures Encodable(CoordToPoint(coord).value)
    ensures PointToCoord(CoordToPoint(coord).value) == coord[..2]
  {
  }

  /** samePoint: both points present and equal. */
  function SamePoint(a: Option<Point>, b: Option<Point>): (r: bool)
    ensures r <==> a.Some? && a == b
  {
    a.Some? && b.Some? && a.value.x == b.value.x && a.value.y == b.value.y
  }

  /**
   * displayPointFromLogical: where a logical point is drawn when the board is
   * turned by `rotation` degrees clockwise; any rotation other than 90, 180 or
   * 270 draws the point where it is.
   */
  function DisplayPointFromLogical(point: Option<Point>, size: int, rotation: int): (r: Option<Point>)
    ensures r.Some? <==> point.Some?
  {
    match point
    case None => None
    case Some(p) =>
      if rotation == 90 then Some(Pt(size - 1 - p.y, p.x))
      else if rotation == 180 then Some(Pt(size - 1 - p.x, size - 1 - p.y))
      else if rotation == 270 then Some(Pt(p.y, size - 1 - p.x))
      else Some(Pt(p.x, p.y))
  }

  /** logicalPointFromDisplay: the logical point drawn at a display position. */
  function LogicalPointFromDisplay(point: Option<Point>, size: int, rotation: int): (r: Option<Point>)
    ensures r.Some? <==> point.Some?
  {
    match point
    case None => None
    case Some(p) =>
      if rotation == 90 then Some(Pt(p.y, size - 1 - p.x))
      else if rotation == 180 then Some(Pt(size - 1 - p.x, size - 1 - p.y))
      else if rotation == 270 then Some(Pt(size - 1 - p.y, p.x))
      else Some(Pt(p.x, p.y))
  }

  /** The two rotation maps are inverse to each other, for every rotation and size. */
  lemma RotationRoundTrip(point: Option<Point>, size: int, rotation: int)
    ensures LogicalPointFromDisplay(DisplayPointFromLogical(point, size, rotation), size, rotation) == point
    ensures DisplayPointFromLogical(LogicalPointFromDisplay(point, size, rotation), size, rotation) == point
  {
  }

  /** Both rotation maps keep a point on the board. */
  lemma RotationKeepsBounds(p: Point, size: int, rotation: int)
    requires InBounds(p, size)
    ensures InBounds(DisplayPointFromLogical(Some(p), size, rotation).value, size)
    ensures InBounds(LogicalPointFromDisplay(Some(p), size, rotation).value, size)
  {
  }
}
