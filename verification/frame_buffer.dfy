/** Pixel buffers and the clipped copy between them. */
module FrameBuffers {
  import opened Results
  import opened Graphics

  datatype PixelFormat = RGBResv8BitPerColor | BGRResv8BitPerColor

  type Pixels = seq<seq<PixelColor>>

  /** width by height pixels, by row. */
  predicate Sized(pixels: Pixels, width: nat, height: nat) {
    |pixels| == height && forall y :: 0 <= y < height ==> |pixels[y]| == width
  }

  predicate Inside(p: Vector2D, width: nat, height: nat) {
    0 <= p.x < width && 0 <= p.y < height
  }

  function PixelAt(pixels: Pixels, p: Vector2D): PixelColor
    requires 0 <= p.y < |pixels| && 0 <= p.x < |pixels[p.y]|
  {
    pixels[p.y][p.x]
  }

  class FrameBuffer {
    const width: nat
    const height: nat
    const format: PixelFormat
    var pixels: Pixels

    constructor (width: nat, height: nat, format: PixelFormat)
      ensures this.width == width && this.height == height && this.format == format && Valid()
    {
      this.width, this.height, this.format := width, height, format;
      pixels := seq(height, _ => seq(width, _ => PixelColor(0, 0, 0)));
    }

    predicate Valid()
      reads this
    {
      Sized(pixels, width, height)
    }

    predicate On(p: Vector2D) {
      Inside(p, width, height)
    }

    function At(p: Vector2D): PixelColor
      requires Valid() && On(p)
      reads this
    {
      PixelAt(pixels, p)
    }

    function Outline(): Rectangle {
      Rectangle(Vector2D(0, 0), Vector2D(width, height))
    }

    method Write(p: Vector2D, c: PixelColor)
      requires Valid() && On(p)
      modifies this
      ensures Valid() && pixels == old(pixels)[p.y := old(pixels)[p.y][p.x := c]]
    {
      pixels := pixels[p.y := pixels[p.y][p.x := c]];
    }

    /** The part of the buffer that is moved, and its new place, lie in the buffer; a row of pixels is not
        copied onto an overlapping part of itself. */
    predicate CanMove(dstPos: Vector2D, src: Rectangle) {
      && src.Proper() && src.pos.x >= 0 && src.pos.y >= 0 && src.End().x <= width && src.End().y <= height
      && 0 <= dstPos.x && dstPos.x + src.size.x <= width && 0 <= dstPos.y && dstPos.y + src.size.y <= height
      && (dstPos.y == src.pos.y ==> dstPos.x + src.size.x <= src.pos.x || src.End().x <= dstPos.x)
    }

    /** Moves a part of the picture, row by row, from the top when it moves up and else from the bottom, so that
        no row is overwritten before it was copied. */
    method Move(dstPos: Vector2D, src: Rectangle)
      requires Valid() && CanMove(dstPos, src)
      modifies this
      ensures Valid()
      ensures forall p :: On(p) ==>
        At(p) == if Rectangle(dstPos, src.size).Contains(p) then old(At(p.Sub(dstPos).Add(src.pos))) else old(At(p))
    {
      if dstPos.y < src.pos.y {
        for y := 0 to src.size.y
          invariant Valid() && Shifted(old(pixels), pixels, dstPos, src, 0, y)
        {
          MoveRow(dstPos, src, y);
        }
      } else {
        for y := 0 to src.size.y
          invariant Valid() && Shifted(old(pixels), pixels, dstPos, src, src.size.y - y, src.size.y)
        {
          MoveRow(dstPos, src, src.size.y - 1 - y);
        }
      }
    }

    /** The rows from..to of the part have been moved. */
    ghost predicate Shifted(before: Pixels, after: Pixels, dstPos: Vector2D, src: Rectangle, from: int, to: int) {
      && Sized(before, width, height) && Sized(after, width, height) && CanMove(dstPos, src) && 0 <= from <= to <= src.size.y
      && forall p :: On(p) ==>
           PixelAt(after, p) == if Rectangle(dstPos, src.size).Contains(p) && from <= p.y - dstPos.y < to
                                then PixelAt(before, p.Sub(dstPos).Add(src.pos)) else PixelAt(before, p)
    }

    /** One memcpy within the buffer. */
    method MoveRow(dstPos: Vector2D, src: Rectangle, y: int)
      requires Valid() && CanMove(dstPos, src) && 0 <= y < src.size.y
      modifies this
      ensures Valid()
      ensures forall p :: On(p) ==>
        At(p) == if Rectangle(dstPos, src.size).Contains(p) && p.y == dstPos.y + y
                 then old(At(p.Sub(dstPos).Add(src.pos))) else old(At(p))
    {
      var row := pixels[dstPos.y + y];
      var moved := pixels[src.pos.y + y][src.pos.x..src.End().x];
      pixels := pixels[dstPos.y + y := row[..dstPos.x] + moved + row[dstPos.x + src.size.x..]];
    }

    /** Copies the part of src inside srcArea so that srcArea's corner comes to lie at dstPos; what
        falls outside either buffer is clipped. */
    method Copy(dstPos: Vector2D, src: FrameBuffer, srcArea: Rectangle) returns (error: Option<Error>)
      requires Valid() && src.Valid() && src != this && srcArea.Proper()
      modifies this
      ensures Valid()
      ensures error.Some? <==> format != src.format
      ensures error.Some? ==> pixels == old(pixels)
      ensures error.None? ==>
        forall p :: On(p) ==> var q := p.Sub(dstPos).Add(srcArea.pos);
          At(p) == if srcArea.Contains(q) && src.On(q) then src.At(q) else old(At(p))
    {
      if format != src.format {
        return Some(UnknownPixelFormat);
      }
      var srcAreaShifted := Rectangle(dstPos, srcArea.size);
      var srcOutline := Rectangle(dstPos.Sub(srcArea.pos), Vector2D(src.width, src.height));
      var copyArea := Outline().Intersect(srcOutline).Intersect(srcAreaShifted);
      var srcStart := copyArea.pos.Sub(dstPos.Sub(srcArea.pos));
      CopyAreaInside(width, height, srcOutline, srcAreaShifted);
      forall p ensures copyArea.Contains(p) <==> On(p) && srcOutline.Contains(p) && srcAreaShifted.Contains(p) {
        IntersectContains(Outline(), srcOutline, p);
        IntersectContains(Outline().Intersect(srcOutline), srcAreaShifted, p);
      }
      hide Rectangle.Intersect;
      CopyRows(copyArea, src, srcStart);
      error := None;
    }

    /** The row loop of Copy. */
    method CopyRows(area: Rectangle, src: FrameBuffer, srcStart: Vector2D)
      requires Valid() && src.Valid() && src != this && area.Proper()
      requires area.size.y > 0 ==>
        && 0 <= area.pos.x && area.End().x <= width && 0 <= area.pos.y && area.End().y <= height
        && 0 <= srcStart.x && srcStart.x + area.size.x <= src.width
        && 0 <= srcStart.y && srcStart.y + area.size.y <= src.height
      modifies this
      ensures Valid() && Copied(old(pixels), pixels, src.pixels, width, height, area, srcStart)
    {
      hide Rectangle.Contains, Sized, PixelAt, Copied;
      assert Rows(area, area.size.y) == area;
      ghost var before := pixels;
      NoneCopied(before, src.pixels, width, height, area, srcStart);
      for y := 0 to area.size.y
        invariant Valid() && Copied(before, pixels, src.pixels, width, height, Rows(area, y), srcStart)
      {
        ghost var now := pixels;
        CopyRow(area.pos.Add(Vector2D(0, y)), src, srcStart.Add(Vector2D(0, y)), area.size.x);
        RowCopied(before, now, pixels, src.pixels, width, height, area, srcStart, y);
      }
    }

    /** One memcpy: w pixels of a row of src. */
    method CopyRow(d: Vector2D, src: FrameBuffer, s: Vector2D, w: nat)
      requires Valid() && src.Valid() && src != this
      requires 0 <= d.y < height && 0 <= d.x && d.x + w <= width
      requires 0 <= s.y < src.height && 0 <= s.x && s.x + w <= src.width
      modifies this
      ensures Valid()
      ensures Copied(old(pixels), pixels, src.pixels, width, height, Rectangle(d, Vector2D(w, 1)), s)
    {
      var row := pixels[d.y];
      pixels := pixels[d.y := row[..d.x] + src.pixels[s.y][s.x..s.x + w] + row[d.x + w..]];
    }
  }

  /** The first n rows of the area. */
  function Rows(area: Rectangle, n: nat): Rectangle {
    area.(size := area.size.(y := n))
  }

  /** Row y of the area. */
  function Row(area: Rectangle, y: nat): Rectangle {
    Rectangle(area.pos.Add(Vector2D(0, y)), Vector2D(area.size.x, 1))
  }

  /** The pixels of the area come from src, the others are as before. */
  ghost predicate Copied(before: Pixels, after: Pixels, src: Pixels, width: nat, height: nat, area: Rectangle, srcStart: Vector2D) {
    && Sized(before, width, height) && Sized(after, width, height)
    && forall p :: Inside(p, width, height) ==>
         var q := p.Sub(area.pos).Add(srcStart);
         if area.Contains(p) then 0 <= q.y < |src| && 0 <= q.x < |src[q.y]| && PixelAt(after, p) == PixelAt(src, q)
         else PixelAt(after, p) == PixelAt(before, p)
  }

  lemma NoneCopied(pixels: Pixels, src: Pixels, width: nat, height: nat, area: Rectangle, srcStart: Vector2D)
    requires Sized(pixels, width, height)
    ensures Copied(pixels, pixels, src, width, height, Rows(area, 0), srcStart)
  {
  }

  lemma RowCopied(before: Pixels, now: Pixels, after: Pixels, src: Pixels, width: nat, height: nat,
                  area: Rectangle, srcStart: Vector2D, y: nat)
    requires Copied(before, now, src, width, height, Rows(area, y), srcStart)
    requires Copied(now, after, src, width, height, Row(area, y), srcStart.Add(Vector2D(0, y)))
    ensures Copied(before, after, src, width, height, Rows(area, y + 1), srcStart)
  {
  }

  /** A row of the copied area lies inside both buffers, even when the area has no column. */
  lemma CopyAreaInside(width: nat, height: nat, srcOutline: Rectangle, shifted: Rectangle)
    requires srcOutline.Proper() && shifted.Proper()
    ensures var area := Rectangle(Vector2D(0, 0), Vector2D(width, height)).Intersect(srcOutline).Intersect(shifted);
      area.Proper() && (area.size.y > 0 ==>
        && 0 <= area.pos.x && area.End().x <= width && 0 <= area.pos.y && area.End().y <= height
        && srcOutline.pos.x <= area.pos.x && area.End().x <= srcOutline.End().x
        && srcOutline.pos.y <= area.pos.y && area.End().y <= srcOutline.End().y)
  {
    var outline := Rectangle(Vector2D(0, 0), Vector2D(width, height));
    IntersectWithin(outline, srcOutline);
    IntersectWithin(outline.Intersect(srcOutline), shifted);
    hide Rectangle.Intersect;
  }
}
