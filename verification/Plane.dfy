/** Points of the screen, shared by the drawing loops of Kernel/gfx/draw.c. */
module Plane {
  datatype Pt = Pt(x: int, y: int)

  function Abs(a: int): nat {
    if a >= 0 then a else -a
  }

  function Max(a: int, b: int): int {
    if a >= b then a else b
  }
}
