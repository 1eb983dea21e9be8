/** Windows: their pixels, and drawing them onto a frame buffer. */
module Windows {
  import opened Results
  import opened Graphics
  import opened FrameBuffers

  /** A window as it is shown: where, its pixels, and the colour it lets through, if any. */
  datatype Sheet = Sheet(pos: Vector2D, width: nat, height: nat, data: Pixels, transparentColor: Option<PixelColor>) {
    predicate Wf() {
      Sized(data, width, height)
    }

    function Area(): Rectangle {
      Rectangle(pos, Vector2D(width, height))
    }

    predicate Opaque() {
      transparentColor.None?
    }

    /** The sheet puts a colour at p. */
    predicate Paints(p: Vector2D)
      requires Wf()
    {
      Area().Contains(p) && (Opaque() || PixelAt(data, p.Sub(pos)) != transparentColor.value)
    }

    function ColorAt(p: Vector2D): PixelColor
      requires Wf() && Area().Contains(p)
    {
      PixelAt(data, p.Sub(pos))
    }

    /** The colour at p after drawing the sheet there, when the redraw is for the given area. A sheet
        with a transparent colour is drawn whole, whatever the area. */
    function Over(area: Rectangle, p: Vector2D, below: PixelColor): PixelColor
      requires Wf()
    {
      if Paints(p) && (!Opaque() || area.Contains(p)) then ColorAt(p) else below
    }
  }

  class Window {
    const width: nat
    const height: nat
    var data: Pixels
    const shadow: FrameBuffer
    var transparentColor: Option<PixelColor>

    constructor (width: nat, height: nat, shadowFormat: PixelFormat)
      ensures Valid() && fresh(shadow) && this.width == width && this.height == height
      ensures shadow.format == shadowFormat && transparentColor.None? && shadow.pixels == data
    {
      this.width, this.height := width, height;
      data := seq(height, _ => seq(width, _ => PixelColor(0, 0, 0)));
      var buffer := new FrameBuffer(width, height, shadowFormat);
      shadow := buffer;
      transparentColor := None;
      new;
      shadow.pixels := data;
    }

    /** The shadow buffer has the size of the window. Its pixels need not be those of the window, because
        Move moves them alone. */
    ghost predicate Valid()
      reads this, shadow
    {
      && Sized(data, width, height)
      && shadow.width == width && shadow.height == height && shadow.Valid()
    }

    /** What the window shows: an opaque one its shadow buffer, one with a transparent colour its own pixels. */
    ghost function SheetAt(pos: Vector2D): Sheet
      reads this, shadow
    {
      Sheet(pos, width, height, if transparentColor.None? then shadow.pixels else data, transparentColor)
    }

    function At(p: Vector2D): PixelColor
      requires Sized(data, width, height) && Inside(p, width, height)
      reads this
    {
      PixelAt(data, p)
    }

    method SetTransparentColor(c: Option<PixelColor>)
      requires Valid()
      modifies this
      ensures Valid() && transparentColor == c && data == old(data)
    {
      transparentColor := c;
    }

    method Write(p: Vector2D, c: PixelColor)
      requires Valid() && Inside(p, width, height)
      modifies this, shadow
      ensures Valid() && transparentColor == old(transparentColor)
      ensures data == old(data)[p.y := old(data)[p.y][p.x := c]]
      ensures shadow.pixels == old(shadow.pixels)[p.y := old(shadow.pixels)[p.y][p.x := c]]
    {
      data := data[p.y := data[p.y][p.x := c]];
      shadow.Write(p, c);
    }

    /** Scrolls a part of what an opaque window shows; the pixels of the window itself stay. */
    method Move(dstPos: Vector2D, src: Rectangle)
      requires Valid() && shadow.CanMove(dstPos, src)
      modifies shadow
      ensures Valid() && data == old(data) && transparentColor == old(transparentColor)
      ensures forall p :: Inside(p, width, height) ==>
        PixelAt(shadow.pixels, p) == if Rectangle(dstPos, src.size).Contains(p)
                                     then PixelAt(old(shadow.pixels), p.Sub(dstPos).Add(src.pos))
                                     else PixelAt(old(shadow.pixels), p)
    {
      shadow.Move(dstPos, src);
    }

    /** New pixels for the whole window, written one by one. */
    method Repaint(pixels: Pixels)
      requires Valid() && Sized(pixels, width, height)
      modifies this, shadow
      ensures Valid() && transparentColor == old(transparentColor) && data == shadow.pixels == pixels
    {
      for y := 0 to height
        invariant Valid() && transparentColor == old(transparentColor)
        invariant forall j :: 0 <= j < y ==> data[j] == shadow.pixels[j] == pixels[j]
      {
        for x := 0 to width
          invariant Valid() && transparentColor == old(transparentColor)
          invariant forall j :: 0 <= j < y ==> data[j] == shadow.pixels[j] == pixels[j]
          invariant data[y][..x] == shadow.pixels[y][..x] == pixels[y][..x]
        {
          Write(Vector2D(x, y), pixels[y][x]);
        }
      }
    }

    /** The copy of an opaque window to a buffer of another format is refused, and nothing is drawn. */
    method DrawTo(dst: FrameBuffer, pos: Vector2D, area: Rectangle)
      requires Valid() && dst.Valid() && dst != shadow && area.Proper()
      modifies dst
      ensures dst.Valid()
      ensures transparentColor.None? && dst.format != shadow.format ==> dst.pixels == old(dst.pixels)
      ensures transparentColor.Some? || dst.format == shadow.format ==>
        forall p :: dst.On(p) ==> dst.At(p) == SheetAt(pos).Over(area, p, old(dst.At(p)))
      ensures transparentColor.None? && dst.format == shadow.format ==> forall p :: dst.On(p) ==>
        dst.At(p) == if Inside(p.Sub(pos), width, height) && area.Contains(p) then shadow.At(p.Sub(pos)) else old(dst.At(p))
      ensures transparentColor.Some? ==> forall p :: dst.On(p) ==>
        dst.At(p) == if Inside(p.Sub(pos), width, height) && At(p.Sub(pos)) != transparentColor.value
                     then At(p.Sub(pos)) else old(dst.At(p))
    {
      if transparentColor.None? {
        var windowArea := Rectangle(pos, Vector2D(width, height));
        var intersection := area.Intersect(windowArea);
        forall p ensures intersection.Proper() && (intersection.Contains(p) <==> area.Contains(p) && windowArea.Contains(p)) {
          IntersectContains(area, windowArea, p);
        }
        hide Rectangle.Intersect;
        assert intersection.Proper() by { IntersectContains(area, windowArea, pos); }
        var error := dst.Copy(intersection.pos, shadow, Rectangle(intersection.pos.Sub(pos), intersection.size));
        return;
      }
      DrawTransparent(dst, pos, transparentColor.value);
      assert forall p :: dst.On(p) ==> dst.At(p) == SheetAt(pos).Over(area, p, old(dst.At(p)));
    }

    /** Every pixel of the window that lies on the destination and is not of colour tc. */
    method DrawTransparent(dst: FrameBuffer, pos: Vector2D, tc: PixelColor)
      requires Valid() && dst.Valid() && dst != shadow
      modifies dst
      ensures dst.Valid()
      ensures forall p :: dst.On(p) ==>
        dst.At(p) == var q := p.Sub(pos); if Inside(q, width, height) && At(q) != tc then At(q) else old(dst.At(p))
    {
      var y := Max(0, 0 - pos.y);
      while y < Min(height, dst.height - pos.y)
        invariant 0 <= y && 0 <= pos.y + y
        invariant dst.Valid()
        invariant forall p :: dst.On(p) ==>
          dst.At(p) == var q := p.Sub(pos);
                       if Inside(q, width, height) && q.y < y && At(q) != tc then At(q) else old(dst.At(p))
      {
        var x := Max(0, 0 - pos.x);
        while x < Min(width, dst.width - pos.x)
          invariant 0 <= x && 0 <= pos.x + x
          invariant dst.Valid()
          invariant forall p :: dst.On(p) ==>
            dst.At(p) == var q := p.Sub(pos);
                         if Inside(q, width, height) && (q.y < y || (q.y == y && q.x < x)) && At(q) != tc then At(q)
                         else old(dst.At(p))
        {
          var c := At(Vector2D(x, y));
          if c != tc {
            dst.Write(pos.Add(Vector2D(x, y)), c);
          }
          x := x + 1;
        }
        y := y + 1;
      }
    }
  }
}
