/** Minimal stand-ins for `engine.math.Vector2` and the rectangles the engine moves
    around. The engine/math vector and rectangle classes are not part of this model;
    only the operations the modelled code uses are given here, over `real`. */
module Geometry {

  /** A 2D vector as a value: velocities and displacements, which are never shared. */
  datatype Vec = Vec(x: real, y: real) {
    function Plus(o: Vec): Vec { Vec(x + o.x, y + o.y) }
    function Times(k: real): Vec { Vec(x * k, y * k) }
  }

  /** A mutable 2D vector object: transform positions, which the source aliases
      between components (the camera follows the player by sharing its vector). */
  class Vector2 {
    var x: real
    var y: real

    constructor (x: real, y: real)
      ensures this.x == x && this.y == y
    {
      this.x, this.y := x, y;
    }
  }

  /** An axis-aligned rectangle: left/top corner and size. */
  datatype Rect = Rect(left: real, top: real, width: real, height: real) {
    /** `rect.move(v)`: the same rectangle translated by `(dx, dy)`. */
    function Move(dx: real, dy: real): Rect {
      Rect(left + dx, top + dy, width, height)
    }
  }
}
