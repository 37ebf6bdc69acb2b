// common/Point.h is not part of this model; this is the part of Point the
// interface code relies on: a pair of ints with componentwise + and -.
module Geometry {
  datatype Point = Point(X: int, Y: int)
  {
    function Plus(o: Point): Point { Point(X + o.X, Y + o.Y) }
    function Minus(o: Point): Point { Point(X - o.X, Y - o.Y) }
  }
}
