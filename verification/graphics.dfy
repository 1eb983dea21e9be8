/** Points and rectangles of the screen. */
module Graphics {
  datatype PixelColor = PixelColor(r: nat, g: nat, b: nat)

  datatype Vector2D = Vector2D(x: int, y: int) {
    function Add(rhs: Vector2D): Vector2D {
      Vector2D(x + rhs.x, y + rhs.y)
    }

    function Sub(rhs: Vector2D): Vector2D {
      Vector2D(x - rhs.x, y - rhs.y)
    }
  }

  function Max(a: int, b: int): int {
    if a < b then b else a
  }

  function Min(a: int, b: int): int {
    if b < a then b else a
  }

  function ElementMax(lhs: Vector2D, rhs: Vector2D): Vector2D {
    Vector2D(Max(lhs.x, rhs.x), Max(lhs.y, rhs.y))
  }

  function ElementMin(lhs: Vector2D, rhs: Vector2D): Vector2D {
    Vector2D(Min(lhs.x, rhs.x), Min(lhs.y, rhs.y))
  }

  datatype Rectangle = Rectangle(pos: Vector2D, size: Vector2D) {
    function End(): Vector2D {
      pos.Add(size)
    }

    predicate Proper() {
      size.x >= 0 && size.y >= 0
    }

    predicate Contains(p: Vector2D) {
      pos.x <= p.x < pos.x + size.x && pos.y <= p.y < pos.y + size.y
    }

    /** operator& */
    function Intersect(rhs: Rectangle): Rectangle {
      if End().x < rhs.pos.x || End().y < rhs.pos.y || rhs.End().x < pos.x || rhs.End().y < pos.y
      then Rectangle(Vector2D(0, 0), Vector2D(0, 0))
      else
        var newPos := ElementMax(pos, rhs.pos);
        Rectangle(newPos, ElementMin(End(), rhs.End()).Sub(newPos))
    }
  }

  /** The intersection contains exactly the common points, also when the rectangles only touch. */
  lemma IntersectContains(a: Rectangle, b: Rectangle, p: Vector2D)
    requires a.Proper() && b.Proper()
    ensures a.Intersect(b).Proper()
    ensures a.Intersect(b).Contains(p) <==> a.Contains(p) && b.Contains(p)
  {
  }

  /** An intersection with a row in it lies within both rectangles. */
  lemma IntersectWithin(a: Rectangle, b: Rectangle)
    requires a.Proper() && b.Proper()
    ensures var c := a.Intersect(b);
      && c.Proper() && c.size.y <= a.size.y
      && (c.size.y > 0 ==>
            && a.pos.x <= c.pos.x && c.End().x <= a.End().x && a.pos.y <= c.pos.y && c.End().y <= a.End().y
            && b.pos.x <= c.pos.x && c.End().x <= b.End().x && b.pos.y <= c.pos.y && c.End().y <= b.End().y)
  {
  }
}
