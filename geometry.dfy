/** Screen geometry of the editor canvas: Unity's Vector2 and Rect, with
    integer coordinates instead of floats. */
module Geometry {

  /** A point or offset on the canvas (Unity's Vector2). */
  datatype Vec = Vec(x: int, y: int) {
    function Plus(o: Vec): Vec { Vec(x + o.x, y + o.y) }
    function Minus(o: Vec): Vec { Vec(x - o.x, y - o.y) }
  }

  /** A node's bounds: top-left corner and size (Unity's Rect). */
  datatype Rect = Rect(position: Vec, size: Vec) {
    /** Unity's Rect.Contains: the box is closed on the left and top edges
        and open on the right and bottom edges. */
    predicate Contains(p: Vec) {
      position.x <= p.x < position.x + size.x &&
      position.y <= p.y < position.y + size.y
    }
  }

  /** Moving a rect moves the set of points it contains by the same offset. */
  lemma ContainsTranslated(r: Rect, p: Vec, d: Vec)
    ensures r.(position := r.position.Plus(d)).Contains(p.Plus(d)) <==> r.Contains(p)
  {
  }
}
