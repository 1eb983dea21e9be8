/** The window system: a stack of layers, a back buffer and the screen. */
module Layers {
  import opened Graphics
  import opened FrameBuffers
  import opened Stacks
  import opened Windows
  import opened Compositing

  class Layer {
    const id: nat
    var pos: Vector2D
    const window: Window

    constructor (id: nat, window: Window)
      ensures this.id == id && this.window == window && pos == Vector2D(0, 0)
    {
      this.id, this.window, pos := id, window, Vector2D(0, 0);
    }

    ghost function Look(): Sheet
      reads this, window, window.shadow
    {
      window.SheetAt(pos)
    }

    function Area(): Rectangle
      reads this
    {
      Rectangle(pos, Vector2D(window.width, window.height))
    }
  }

  /** The part of a layer that Draw(id, area) repaints; an area of negative size means all of it. */
  function RedrawArea(layer: Rectangle, area: Rectangle): Rectangle {
    if area.size.x >= 0 || area.size.y >= 0
    then layer.Intersect(Rectangle(area.pos.Add(layer.pos), area.size))
    else layer
  }

  const WHOLE_LAYER := Rectangle(Vector2D(0, 0), Vector2D(-1, -1))

  lemma RedrawProper(layer: Rectangle, area: Rectangle)
    requires layer.Proper() && (area.Proper() || (area.size.x < 0 && area.size.y < 0))
    ensures RedrawArea(layer, area).Proper()
    ensures forall p :: RedrawArea(layer, area).Contains(p) <==>
      layer.Contains(p) && (area.size.x < 0 || area.Contains(p.Sub(layer.pos)))
  {
  }

  class LayerManager {
    const screen: FrameBuffer
    const backBuffer: FrameBuffer
    var layers: seq<Layer>
    var stack: seq<Layer>
    var latestId: nat

    constructor (screen: FrameBuffer)
      requires screen.Valid()
      ensures this.screen == screen && fresh(backBuffer) && layers == [] && stack == [] && Valid()
    {
      this.screen := screen;
      backBuffer := new FrameBuffer(screen.width, screen.height, screen.format);
      layers, stack, latestId := [], [], 0;
    }

    ghost function Windows(): set<Window>
      reads this
    {
      set l | l in layers :: l.window
    }

    ghost function Shadows(): set<FrameBuffer>
      reads this
    {
      set l | l in layers :: l.window.shadow
    }

    /** Every layer has an id and a window of its own, and draws from a buffer of its own. */
    ghost predicate Valid()
      reads this, screen, backBuffer, Windows(), Shadows()
    {
      && screen != backBuffer && screen.Valid() && backBuffer.Valid()
      && backBuffer.width == screen.width && backBuffer.height == screen.height && backBuffer.format == screen.format
      && (forall i, j :: 0 <= i < j < |layers| ==>
            layers[i].id != layers[j].id && layers[i].window != layers[j].window
            && layers[i].window.shadow != layers[j].window.shadow)
      && Distinct(stack) && (forall l :: l in stack ==> l in layers)
      && forall l :: l in layers ==>
           && 0 < l.id <= latestId
           && l.window.Valid() && l.window.shadow != screen && l.window.shadow != backBuffer
           && l.window.shadow.format == screen.format
    }

    ghost function StackWindows(): set<Window>
      reads this
    {
      set l | l in stack :: l.window
    }

    ghost function StackShadows(): set<FrameBuffer>
      reads this
    {
      set l | l in stack :: l.window.shadow
    }

    /** The stack as values, bottom first. */
    ghost function Sheets(): seq<Sheet>
      reads this, stack, StackWindows(), StackShadows()
    {
      seq(|stack|, i requires 0 <= i < |stack| reads this, stack, StackWindows(), StackShadows() => stack[i].Look())
    }

    /** The screen and the back buffer show the given sheets. */
    ghost predicate ShowsAs(sheets: seq<Sheet>)
      requires screen.Valid() && backBuffer.Valid()
      requires backBuffer.width == screen.width && backBuffer.height == screen.height
      reads screen, backBuffer
    {
      && Desktop(sheets, screen.width, screen.height)
      && forall p :: screen.On(p) ==>
           screen.At(p) == backBuffer.At(p) == Shown(sheets, screen.width, screen.height, p)
    }

    /** The screen and the back buffer show the stack. */
    ghost predicate Shows()
      requires Valid()
      reads this, screen, backBuffer, layers, stack, StackWindows(), StackShadows(), Windows(), Shadows()
    {
      ShowsAs(Sheets())
    }

    lemma NoLayerZero()
      requires Valid()
      ensures forall l :: l in layers ==> l.id > 0
    {
    }

    lemma OneLayer(l: Layer, l': Layer)
      requires Valid() && l in layers && l' in layers
      requires l.id == l'.id || l.window == l'.window || l.window.shadow == l'.window.shadow
      ensures l == l'
    {
      var i :| 0 <= i < |layers| && layers[i] == l;
      var j :| 0 <= j < |layers| && layers[j] == l';
      assert i == j;
    }

    lemma OnlyOne(layer: Layer)
      requires Valid() && layer in layers
      ensures forall l :: l in layers && l.id == layer.id ==> l == layer
    {
      forall l | l in layers && l.id == layer.id ensures l == layer {
        OneLayer(l, layer);
      }
    }

    lemma InLayers(h: nat)
      requires Valid() && h < |stack|
      ensures stack[h] in layers
    {
    }

    lemma OneInStack(h: nat)
      requires Valid() && h < |stack|
      ensures forall i :: 0 <= i < |stack| ==> (stack[i].id == stack[h].id <==> i == h)
    {
      forall i | 0 <= i < |stack| && stack[i].id == stack[h].id ensures i == h {
        OneLayer(stack[i], stack[h]);
      }
    }

    method NewLayer(window: Window) returns (layer: Layer)
      requires Valid() && window.Valid() && window !in Windows() && window.shadow !in Shadows()
      requires window.shadow != screen && window.shadow != backBuffer && window.shadow.format == screen.format
      modifies this
      ensures Valid() && fresh(layer) && layer.id == old(latestId) + 1 == latestId
      ensures layer.window == window && layers == old(layers) + [layer] && stack == old(stack)
    {
      hide Distinct;
      latestId := latestId + 1;
      layer := new Layer(latestId, window);
      layers := layers + [layer];
      assert forall i :: 0 <= i < |layers| - 1 ==> layers[i].window in old(Windows()) && layers[i].window.shadow in old(Shadows());
    }

    method FindLayer(id: nat) returns (layer: Layer?)
      requires Valid()
      ensures Valid() && Sheets() == old(Sheets()) && (old(Shows()) ==> Shows())
      ensures layer == null <==> forall l :: l in layers ==> l.id != id
      ensures layer != null ==> layer in layers && layer.id == id
    {
      for i := 0 to |layers|
        invariant forall j :: 0 <= j < i ==> layers[j].id != id
      {
        if layers[i].id == id {
          return layers[i];
        }
      }
      layer := null;
    }

    /** The height of the layer with the id; -1 if no such layer is shown. */
    ghost function HeightOf(id: nat): (h: int)
      reads this
      ensures -1 <= h < |stack| && (h >= 0 ==> stack[h].id == id)
      ensures h < 0 <==> forall l :: l in stack ==> l.id != id
    {
      if h :| 0 <= h < |stack| && stack[h].id == id then h else -1
    }

    lemma HeightIs(layer: Layer)
      requires Valid() && layer in layers
      ensures HeightOf(layer.id) == IndexOf(stack, layer)
    {
      var h := HeightOf(layer.id);
      if h >= 0 {
        OneLayer(stack[h], layer);
        IndexUnique(stack, h);
      }
    }

    lemma StackIsDistinct()
      requires Valid()
      ensures Distinct(stack) && forall l :: l in stack ==> l in layers
    {
    }

    lemma RemovedIsHidden(id: nat)
      requires Valid()
      ensures forall l :: l in Removed(stack, HeightOf(id)) ==> l.id != id
    {
      var h := HeightOf(id);
      if h >= 0 {
        OneInStack(h);
        WithoutAt(stack, h);
      }
    }

    method GetHeight(id: nat) returns (height: int)
      requires Valid()
      ensures Valid() && height == HeightOf(id)
    {
      for h := 0 to |stack|
        invariant forall i :: 0 <= i < h ==> stack[i].id != id
      {
        if stack[h].id == id {
          OneInStack(h);
          return h;
        }
      }
      height := -1;
    }

    /** std::find in the stack. */
    method Find(layer: Layer) returns (height: nat)
      requires Valid()
      ensures Valid() && Distinct(stack)
      ensures height <= |stack|
      ensures height < |stack| ==> stack[height] == layer
      ensures height == |stack| <==> layer !in stack
    {
      height := 0;
      while height < |stack| && stack[height] != layer
        invariant height <= |stack| && layer !in stack[..height]
      {
        height := height + 1;
      }
    }

    lemma SheetsWf()
      requires Valid()
      ensures |Sheets()| == |stack| && forall s :: s in Sheets() ==> s.Wf()
      ensures forall i :: 0 <= i < |stack| ==> Sheets()[i].Wf()
    {
      forall i | 0 <= i < |stack| ensures Sheets()[i].Wf() {
        assert stack[i] in layers;
      }
    }

    /** The back buffer, which held base, now has the sheets from..to drawn over it for the area. */
    ghost predicate Drawn(sheets: seq<Sheet>, from: nat, to: nat, area: Rectangle, base: Pixels)
      requires from <= to <= |sheets| && (forall s :: s in sheets ==> s.Wf())
      requires backBuffer.Valid() && Sized(base, backBuffer.width, backBuffer.height)
      reads backBuffer
    {
      forall p :: backBuffer.On(p) ==> backBuffer.At(p) == Layered(sheets[from..to], area, p, PixelAt(base, p))
    }

    /** One step of the drawing loops: the layer at height i. */
    method DrawOne(i: nat, area: Rectangle, ghost from: nat, ghost base: Pixels)
      requires Valid() && from <= i < |stack| && area.Proper() && Sized(base, screen.width, screen.height)
      requires (forall s :: s in Sheets() ==> s.Wf()) && Drawn(Sheets(), from, i, area, base)
      modifies backBuffer
      ensures Valid() && Sheets() == old(Sheets()) && Drawn(Sheets(), from, i + 1, area, base)
    {
      hide Layered, Sheet.Over, Rectangle.Contains, PixelAt, Distinct;
      ghost var sheets := Sheets();
      var layer := stack[i];
      assert layer in layers;
      LayeredStep(sheets, from, i, area);
      layer.window.DrawTo(backBuffer, layer.pos, area);
    }

    /** The copy of an area from the back buffer to the same place of the screen. */
    method Flush(area: Rectangle)
      requires Valid() && area.Proper()
      modifies screen
      ensures Valid() && Sheets() == old(Sheets())
      ensures forall p :: screen.On(p) ==> screen.At(p) == if area.Contains(p) then backBuffer.At(p) else old(screen.At(p))
    {
      var error := screen.Copy(area.pos, backBuffer, area);
    }

    method DrawArea(area: Rectangle)
      requires Valid() && area.Proper()
      modifies backBuffer, screen
      ensures Valid() && Sheets() == old(Sheets())
      ensures forall p :: screen.On(p) ==>
        && backBuffer.At(p) == Layered(Sheets(), area, p, old(backBuffer.At(p)))
        && screen.At(p) == if area.Contains(p) then backBuffer.At(p) else old(screen.At(p))
    {
      ghost var sheets, base := Sheets(), backBuffer.pixels;
      SheetsWf();
      for i := 0 to |stack|
        invariant Valid() && Sheets() == sheets && screen.pixels == old(screen.pixels)
        invariant Drawn(sheets, 0, i, area, base)
      {
        DrawOne(i, area, 0, base);
      }
      assert sheets[0..|stack|] == sheets;
      Flush(area);
    }

    /** The loop of Draw(id, area): repaints the layer at height h, and those above it, inside its part
        of area. */
    method DrawFrom(id: nat, area: Rectangle, ghost h: nat)
      requires Valid() && h < |stack| && stack[h].id == id
      requires area.Proper() || (area.size.x < 0 && area.size.y < 0)
      modifies backBuffer, screen
      ensures Valid() && Sheets() == old(Sheets())
      ensures var part := RedrawArea(stack[h].Area(), area);
        forall p :: screen.On(p) ==>
          && backBuffer.At(p) == Layered(Sheets()[h..], part, p, old(backBuffer.At(p)))
          && screen.At(p) == if part.Contains(p) then backBuffer.At(p) else old(screen.At(p))
    {
      ghost var part := RedrawArea(stack[h].Area(), area);
      RedrawProper(stack[h].Area(), area);
      hide RedrawArea, Layered, Rectangle.Contains, PixelAt;
      ghost var sheets, base := Sheets(), backBuffer.pixels;
      SheetsWf();
      OneInStack(h);
      var draw := false;
      var windowArea := Rectangle(Vector2D(0, 0), Vector2D(0, 0));
      for i := 0 to |stack|
        invariant Valid() && Sheets() == sheets && screen.pixels == old(screen.pixels)
        invariant draw <==> i > h
        invariant if draw then windowArea == part && Drawn(sheets, h, i, part, base) else backBuffer.pixels == base
      {
        var layer := stack[i];
        if layer.id == id {
          windowArea := RedrawArea(layer.Area(), area);
          draw := true;
        }
        if draw {
          DrawOne(i, windowArea, h, base);
        }
      }
      assert sheets[h..|stack|] == sheets[h..];
      Flush(windowArea);
    }

    /** Draw(id, area) after the pixels of a layer changed inside that area only: the picture, which showed
        before, shows the stack again if and only if no pixel of a transparent layer was erased. */
    method Draw(id: nat, area: Rectangle, ghost h: nat, ghost before: seq<Sheet>)
      requires Valid() && h < |stack| && stack[h].id == id
      requires area.Proper() || (area.size.x < 0 && area.size.y < 0)
      requires ShowsAs(before) && |before| == |stack| && Sheets() == before[h := Sheets()[h]]
      requires Desktop(Sheets(), screen.width, screen.height)
      requires forall p :: !RedrawArea(stack[h].Area(), area).Contains(p) ==> Agree(before[h], Sheets()[h], p)
      modifies backBuffer, screen
      ensures Valid() && Sheets() == old(Sheets())
      ensures Shows() <==>
        forall p :: screen.On(p) ==> ErasesNothing(before, screen.width, screen.height, h, Sheets()[h], p)
      ensures Sheets()[h].Opaque() ==> Shows()
    {
      ghost var part, sheets := RedrawArea(stack[h].Area(), area), Sheets();
      RedrawProper(stack[h].Area(), area);
      hide RedrawArea;
      DrawFrom(id, area, h);
      forall p | screen.On(p)
        ensures (screen.At(p) == backBuffer.At(p) == Shown(sheets, screen.width, screen.height, p)) <==>
                ErasesNothing(before, screen.width, screen.height, h, sheets[h], p)
        ensures sheets[h].Opaque() ==> ErasesNothing(before, screen.width, screen.height, h, sheets[h], p)
      {
        ContentRedrawn(before, screen.width, screen.height, h, sheets[h], part, p);
      }
    }

    method Move(id: nat, newPos: Vector2D, ghost h: nat)
      requires Valid() && Shows() && 0 < h < |stack| && stack[h].id == id
      modifies stack[h], backBuffer, screen
      ensures Valid() && Shows()
      ensures Sheets() == old(Sheets())[h := old(Sheets())[h].(pos := newPos)]
    {
      ghost var sheets := Sheets();
      var layer := FindLayer(id);
      OneLayer(layer, stack[h]);
      var oldArea := layer.Area();
      layer.pos := newPos;
      Redraw(id, oldArea, h, sheets);
    }

    method MoveRelative(id: nat, posDiff: Vector2D, ghost h: nat)
      requires Valid() && Shows() && 0 < h < |stack| && stack[h].id == id
      modifies stack[h], backBuffer, screen
      ensures Valid() && Shows()
      ensures Sheets() == old(Sheets())[h := old(Sheets())[h].(pos := old(stack[h].pos).Add(posDiff))]
    {
      ghost var sheets := Sheets();
      var layer := FindLayer(id);
      OneLayer(layer, stack[h]);
      var oldArea := layer.Area();
      layer.pos := layer.pos.Add(posDiff);
      Redraw(id, oldArea, h, sheets);
    }

    /** The two redraws that follow a move. */
    method Redraw(id: nat, oldArea: Rectangle, ghost h: nat, ghost before: seq<Sheet>)
      requires Valid() && 0 < h < |stack| && stack[h].id == id
      requires ShowsAs(before) && |before| == |stack| && oldArea == before[h].Area()
      requires Sheets() == before[h := before[h].(pos := stack[h].pos)]
      modifies backBuffer, screen
      ensures Valid() && Shows() && Sheets() == old(Sheets())
    {
      ghost var sheets := Sheets();
      DrawArea(oldArea);
      DrawFrom(id, WHOLE_LAYER, h);
      assert RedrawArea(stack[h].Area(), WHOLE_LAYER) == sheets[h].Area();
      hide RedrawArea, Layered, Rectangle.Contains;
      MovedIsDesktop(before, screen.width, screen.height, h, stack[h].pos);
      forall p | screen.On(p) ensures screen.At(p) == backBuffer.At(p) == Shown(sheets, screen.width, screen.height, p) {
        MovedRedrawn(before, screen.width, screen.height, h, stack[h].pos, p);
      }
    }

    method SetStack(newStack: seq<Layer>)
      requires Valid() && Distinct(newStack) && forall l :: l in newStack ==> l in layers
      modifies this`stack
      ensures Valid() && stack == newStack
    {
      stack := newStack;
    }

    /** Nothing happens if no layer has the id. */
    method Hide(id: nat)
      requires Valid()
      modifies this`stack
      ensures Valid() && stack == Removed(old(stack), old(HeightOf(id)))
    {
      var layer := FindLayer(id);
      if layer == null {  // which is not in the stack
        return;
      }
      HeightIs(layer);
      HiddenIs(stack, layer);
      var pos := Find(layer);
      if pos < |stack| {
        IndexUnique(stack, pos);
        SetStack(Without(stack, pos));
      }
    }

    method UpDown(id: nat, newHeight: int, ghost layer: Layer)
      requires Valid() && layer in layers && layer.id == id
      modifies this`stack
      ensures Valid()
      ensures stack == if newHeight < 0 then Hidden(old(stack), layer) else Lifted(old(stack), layer, newHeight)
    {
      hide LayerManager.Valid, Lifted, Inserted, Without, Distinct;
      if newHeight < 0 {
        HeightIs(layer);
        Hide(id);
        return;
      }
      StackIsDistinct();
      LiftedIs(stack, layer, newHeight);
      LiftedWithin(stack, layer, newHeight, layers);
      var newPos := Min(newHeight, |stack|);
      var found: Layer := FindLayer(id);
      OneLayer(found, layer);
      var oldPos := Find(found);
      LiftedFrom(stack, layer, newHeight, oldPos);
      if oldPos == |stack| {
        SetStack(Inserted(stack, newPos, found));
        return;
      }
      if newPos == |stack| {
        newPos := newPos - 1;
      }
      SetStack(Inserted(Without(stack, oldPos), newPos, found));
    }

    method RemoveLayer(id: nat)
      requires Valid()
      modifies this
      ensures Valid() && latestId == old(latestId)
      ensures forall l :: l in layers <==> l in old(layers) && l.id != id
      ensures stack == Removed(old(stack), old(HeightOf(id)))
    {
      RemovedIsHidden(id);
      Hide(id);
      var kept := [];
      for i := 0 to |layers|
        invariant |kept| <= i && forall l :: l in kept <==> l in layers[..i] && l.id != id
        invariant forall j, k :: 0 <= j < k < |kept| ==> kept[j].id != kept[k].id
        invariant layers == old(layers)
      {
        if layers[i].id != id {
          kept := kept + [layers[i]];
        }
      }
      layers := kept;
    }
  }
}
