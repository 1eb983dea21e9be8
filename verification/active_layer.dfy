/** Which layer is active, and closing a layer. */
module ActiveLayers {
  import opened Results
  import opened Graphics
  import opened FrameBuffers
  import opened Stacks
  import opened Windows
  import opened Compositing
  import opened Layers

  class ActiveLayer {
    const manager: LayerManager
    var activeLayer: nat
    var mouseLayer: nat

    constructor (manager: LayerManager)
      ensures this.manager == manager && activeLayer == 0 && mouseLayer == 0
    {
      this.manager, activeLayer, mouseLayer := manager, 0, 0;
    }

    /** Title bars are redrawn by painting the window anew; nothing else of the layers changes. */
    method Repaint(layer: Layer, pixels: Pixels)
      requires manager.Valid() && layer in manager.layers
      requires Sized(pixels, layer.window.width, layer.window.height)
      modifies layer.window, layer.window.shadow
      ensures manager.Valid() && layer.window.data == layer.window.shadow.pixels == pixels
      ensures layer.window.transparentColor == old(layer.window.transparentColor)
      ensures forall l :: l in old(manager.layers) && l != layer ==> l.Look() == old(l.Look())
      ensures manager.screen.pixels == old(manager.screen.pixels)
      ensures manager.backBuffer.pixels == old(manager.backBuffer.pixels)
    {
      forall l | l in manager.layers && l != layer ensures l.window != layer.window && l.window.shadow != layer.window.shadow {
        if l.window == layer.window || l.window.shadow == layer.window.shadow {
          manager.OneLayer(l, layer);
        }
      }
      layer.window.Repaint(pixels);
    }

    /** The active layer is on the screen, at height h, and opaque. */
    ghost predicate CanDeactivate(pixels: Pixels, h: nat)
      requires manager.Valid()
      reads this, manager, manager.stack, manager.StackWindows(), manager.StackShadows(), manager.Windows(), manager.Shadows()
      reads manager.screen, manager.backBuffer
    {
      && h < |manager.stack| && manager.stack[h].id == activeLayer && manager.Sheets()[h].Opaque()
      && Sized(pixels, manager.stack[h].window.width, manager.stack[h].window.height)
    }

    /** The layer is opaque and not the bottom one; below the mouse layer all are opaque. */
    ghost predicate CanRaise(layer: Layer, pixels: Pixels, mouse: Layer)
      requires manager.Valid()
      reads this, manager, manager.stack, manager.StackWindows(), manager.StackShadows(), manager.Windows(), manager.Shadows()
      reads manager.screen, manager.backBuffer, layer.window, layer.window.shadow
    {
      && layer in manager.layers && layer.window.transparentColor.None?
      && Sized(pixels, layer.window.width, layer.window.height)
      && mouse in manager.stack && mouse.id == mouseLayer && mouse != layer
      && IndexOf(manager.stack, layer) != 0 && IndexOf(manager.stack, mouse) > 0
      && forall i :: 0 <= i < IndexOf(manager.stack, mouse) ==> manager.Sheets()[i].Opaque()
    }

    /** Activate; the pixels are what the two windows show once their title bars are redrawn. The
        messages to the tasks of the windows are not modelled. */
    method Activate(layerId: nat, inactive: Pixels, active: Pixels, ghost h: nat, ghost layer: Layer, ghost mouse: Layer)
      requires manager.Valid() && manager.Shows()
      requires activeLayer != layerId && activeLayer > 0 ==> CanDeactivate(inactive, h)
      requires activeLayer != layerId && layerId > 0 ==> layer.id == layerId && CanRaise(layer, active, mouse)
      modifies this, manager`stack, manager.Windows(), manager.Shadows(), manager.backBuffer, manager.screen
      ensures manager.Valid() && manager.Shows() && activeLayer == layerId && mouseLayer == old(mouseLayer)
      ensures layerId == 0 || layerId == old(activeLayer) ==> manager.stack == old(manager.stack)
      ensures layerId > 0 && layerId != old(activeLayer) ==>
        manager.stack == BelowMouse(old(manager.stack), layer, mouse) && layer.Look().data == active
      ensures forall l :: l in manager.layers && l.id == old(activeLayer) != layerId ==> l.Look().data == inactive
      ensures forall l :: l in old(manager.layers) && l.id != old(activeLayer) && l.id != layerId ==> l.Look() == old(l.Look())
    {
      hide LayerManager.Valid, LayerManager.Shows, BelowMouse, ActiveLayer.CanDeactivate;
      if activeLayer == layerId {
        return;
      }
      DeactivateActive(layerId, inactive, h, layer, active, mouse);
      if activeLayer > 0 {
        ActivateNew(active, layer, mouse);
      }
    }

    /** Up to the assignment of the new active layer; raising that one is as possible as before. */
    method DeactivateActive(layerId: nat, pixels: Pixels, ghost h: nat,
                            ghost layer: Layer, ghost active: Pixels, ghost mouse: Layer)
      requires manager.Valid() && manager.Shows() && (activeLayer > 0 ==> CanDeactivate(pixels, h))
      requires layerId != activeLayer && (layerId > 0 ==> layer.id == layerId && CanRaise(layer, active, mouse))
      modifies this`activeLayer, manager.Windows(), manager.Shadows(), manager.backBuffer, manager.screen
      ensures manager.Valid() && manager.Shows() && activeLayer == layerId
      ensures layerId > 0 ==> CanRaise(layer, active, mouse)
      ensures forall l :: l in manager.layers && l.id == old(activeLayer) ==> l.Look().data == pixels
      ensures forall l :: l in old(manager.layers) && (old(activeLayer) == 0 || l.id != old(activeLayer)) ==> l.Look() == old(l.Look())
    {
      hide LayerManager.Valid, Desktop, Shown, IndexOf, Sized;
      manager.NoLayerZero();
      if activeLayer > 0 {
        manager.InLayers(h);
        Deactivate(activeLayer, pixels, h);
        manager.OnlyOne(manager.stack[h]);
      }
      ghost var sheets := manager.Sheets();
      activeLayer := layerId;
      assert manager.Sheets() == sheets;
    }

    method ActivateNew(pixels: Pixels, ghost layer: Layer, ghost mouse: Layer)
      requires manager.Valid() && manager.Shows() && layer.id == activeLayer && CanRaise(layer, pixels, mouse)
      modifies manager`stack, layer.window, layer.window.shadow, manager.backBuffer, manager.screen
      ensures manager.Valid() && manager.Shows() && layer.Look().data == pixels
      ensures manager.stack == BelowMouse(old(manager.stack), layer, mouse)
      ensures forall l :: l in old(manager.layers) && l != layer ==> l.Look() == old(l.Look())
    {
      var found: Layer := manager.FindLayer(activeLayer);
      manager.OneLayer(found, layer);
      hide LayerManager.Valid, Desktop, Shown, BelowMouse, IndexOf;
      Raise(found, pixels, mouse);
    }

    /** The first half of Activate: the layer loses its active look. */
    method Deactivate(id: nat, pixels: Pixels, ghost h: nat)
      requires manager.Valid() && manager.Shows() && h < |manager.stack| && manager.stack[h].id == id
      requires manager.Sheets()[h].Opaque()
      requires Sized(pixels, manager.stack[h].window.width, manager.stack[h].window.height)
      modifies manager.stack[h].window, manager.stack[h].window.shadow, manager.backBuffer, manager.screen
      ensures manager.Valid() && manager.Shows()
      ensures manager.Sheets() == old(manager.Sheets())[h := old(manager.Sheets())[h].(data := pixels)]
      ensures manager.stack[h].window.data == manager.stack[h].Look().data == pixels
      ensures forall l :: l in old(manager.layers) && l.id != id ==> l.Look() == old(l.Look())
    {
      hide Desktop, Shown, Distinct, ErasesNothing;
      ghost var before := manager.Sheets();
      var layer := manager.FindLayer(id);
      manager.OneLayer(layer, manager.stack[h]);
      manager.OneInStack(h);
      Repaint(layer, pixels);
      assert manager.Sheets() == before[h := before[h].(data := pixels)];
      RepaintedIsDesktop(before, manager.screen.width, manager.screen.height, h, pixels);
      manager.Draw(id, WHOLE_LAYER, h, before);
    }

    /** The second half of Activate: the layer, hidden or not, gets its active look and comes to lie
        directly below the mouse layer. */
    method Raise(layer: Layer, pixels: Pixels, ghost mouse: Layer)
      requires manager.Valid() && manager.Shows() && layer in manager.layers
      requires layer.window.transparentColor.None? && Sized(pixels, layer.window.width, layer.window.height)
      requires mouse in manager.stack && mouse.id == mouseLayer && mouse != layer
      requires IndexOf(manager.stack, layer) != 0
      requires forall i :: 0 <= i < IndexOf(manager.stack, mouse) ==> manager.Sheets()[i].Opaque()
      requires IndexOf(manager.stack, mouse) > 0
      modifies manager`stack, layer.window, layer.window.shadow, manager.backBuffer, manager.screen
      ensures manager.Valid() && manager.Shows() && layer.Look().data == pixels
      ensures manager.stack == BelowMouse(old(manager.stack), layer, mouse)
      ensures forall l :: l in old(manager.layers) && l != layer ==> l.Look() == old(l.Look())
    {
      hide BelowMouse;
      ghost var sheets := manager.Sheets();
      ghost var h, j := IndexOf(manager.stack, layer), IndexOf(Hidden(manager.stack, layer), mouse);
      ghost var m := IndexOf(manager.stack, mouse);
      HiddenIndex(manager.stack, layer, mouse);
      LiftRepainted(layer, pixels, h, j, mouse);
      ghost var sheets' := manager.Sheets();
      manager.SheetsWf();
      hide LayerManager.Valid, Desktop, Removed, Hidden, Without, Inserted, IndexOf;
      RaisedIsDesktop(sheets, sheets', manager.screen.width, manager.screen.height, h, j, m);
      manager.DrawFrom(layer.id, WHOLE_LAYER, j);
      forall p | manager.screen.On(p)
        ensures manager.screen.At(p) == manager.backBuffer.At(p)
                == Shown(sheets', manager.screen.width, manager.screen.height, p)
      {
        RaisedRedrawn(sheets, sheets', manager.screen.width, manager.screen.height, h, j, p);
      }
    }

    method LiftRepainted(layer: Layer, pixels: Pixels, ghost h: int, ghost j: nat, ghost mouse: Layer)
      requires manager.Valid() && layer in manager.layers && h == IndexOf(manager.stack, layer)
      requires mouse in manager.stack && mouse.id == mouseLayer && mouse != layer
      requires j == IndexOf(Hidden(manager.stack, layer), mouse)
      requires Sized(pixels, layer.window.width, layer.window.height)
      modifies manager`stack, layer.window, layer.window.shadow
      ensures manager.Valid() && layer.window.data == layer.window.shadow.pixels == pixels
      ensures layer.window.transparentColor == old(layer.window.transparentColor)
      ensures manager.stack == BelowMouse(old(manager.stack), layer, mouse)
      ensures |manager.Sheets()| == |manager.stack| && j < |manager.stack| && manager.stack[j] == layer
      ensures manager.Sheets()[j] == layer.Look()
      ensures Without(manager.Sheets(), j) == Removed(old(manager.Sheets()), h)
      ensures forall l :: l in old(manager.layers) && l != layer ==> l.Look() == old(l.Look())
      ensures manager.screen.pixels == old(manager.screen.pixels)
      ensures manager.backBuffer.pixels == old(manager.backBuffer.pixels)
    {
      hide BelowMouse, Without, Inserted, Sized, Distinct;
      ghost var sheets, was := manager.Sheets(), manager.stack;
      manager.StackIsDistinct();
      HiddenIs(was, layer);
      Repaint(layer, pixels);
      LiftToMouse(layer, mouse);
      BelowMouseIs(was, layer, mouse);
      WithoutInserted(Hidden(was, layer), j, layer);
      ghost var sheets' := manager.Sheets();
      assert forall l :: l in was ==> l in manager.layers;
      LooksFollow(was, manager.stack, sheets, sheets', h, j, layer);
    }

    /** The two UpDown calls: to the bottom, and from there to just below the mouse layer. */
    method LiftToMouse(layer: Layer, ghost mouse: Layer)
      requires manager.Valid() && layer in manager.layers
      requires mouse in manager.stack && mouse.id == mouseLayer && mouse != layer
      modifies manager`stack
      ensures manager.Valid() && manager.stack == BelowMouse(old(manager.stack), layer, mouse)
    {
      assert mouse in manager.layers;
      LiftedBelow(manager.stack, layer, mouse);
      manager.UpDown(layer.id, 0, layer);
      hide LayerManager.Valid, Lifted, Hidden, Inserted, IndexOf;
      manager.HeightIs(mouse);
      var height := manager.GetHeight(mouseLayer);
      manager.UpDown(layer.id, height - 1, layer);
    }
  }

  /** CloseLayer: afterwards the screen shows the remaining stack. The task of the layer is not modelled. */
  method CloseLayer(active: ActiveLayer, layerId: nat, inactive: Pixels, ghost h: nat)
    returns (error: Option<Error>)
    requires var manager := active.manager; manager.Valid() && manager.Shows()
    requires active.activeLayer > 0 ==> active.CanDeactivate(inactive, h)
    requires active.manager.stack[0].id != layerId
    modifies active, active.manager, active.manager.Windows(), active.manager.Shadows()
    modifies active.manager.backBuffer, active.manager.screen
    ensures active.manager.Valid() && active.manager.Shows()
    ensures error == (if exists l :: l in old(active.manager.layers) && l.id == layerId then None else Some(NoSuchEntry))
    ensures error.Some? ==> active.manager.Sheets() == old(active.manager.Sheets()) && active.activeLayer == old(active.activeLayer)
    ensures error.None? ==> active.activeLayer == 0
    ensures forall l :: l in active.manager.layers ==> l in old(active.manager.layers) && l.id != layerId
    ensures forall l :: l in old(active.manager.layers) && l.id != layerId ==> l in active.manager.layers
    ensures forall l :: l in old(active.manager.layers) && l.id == layerId ==>
      active.manager.stack == Hidden(old(active.manager.stack), l)
    ensures forall l :: l in active.manager.layers && l.id != old(active.activeLayer) ==> l.Look() == old(l.Look())
  {
    hide LayerManager.Valid, LayerManager.Shows, Sized, Hidden;
    var manager := active.manager;
    var layer := manager.FindLayer(layerId);
    if layer == null {
      return Some(NoSuchEntry);
    }
    CloseFound(active, layer, inactive, h);
    error := None;
  }

  method CloseFound(active: ActiveLayer, layer: Layer, inactive: Pixels, ghost h: nat)
    requires var manager := active.manager; manager.Valid() && manager.Shows() && layer in manager.layers
    requires active.activeLayer > 0 ==> active.CanDeactivate(inactive, h)
    requires active.manager.stack[0].id != layer.id
    modifies active, active.manager, active.manager.Windows(), active.manager.Shadows()
    modifies active.manager.backBuffer, active.manager.screen
    ensures active.manager.Valid() && active.manager.Shows() && active.activeLayer == 0
    ensures forall l :: l in active.manager.layers <==> l in old(active.manager.layers) && l != layer
    ensures active.manager.stack == Hidden(old(active.manager.stack), layer)
    ensures forall l :: l in active.manager.layers && l.id != old(active.activeLayer) ==> l.Look() == old(l.Look())
  {
    hide LayerManager.Valid, LayerManager.Shows, ActiveLayer.CanDeactivate, Hidden;
    active.manager.NoLayerZero();
    var area := layer.Area();
    active.Activate(0, inactive, [], h, layer, layer);
    RemoveAndRedraw(active.manager, layer, area);
  }

  method RemoveAndRedraw(manager: LayerManager, layer: Layer, area: Rectangle)
    requires manager.Valid() && manager.Shows() && layer in manager.layers && layer != manager.stack[0]
    requires area == layer.Area()
    modifies manager, manager.backBuffer, manager.screen
    ensures manager.Valid() && manager.Shows() && manager.stack == Hidden(old(manager.stack), layer)
    ensures forall l :: l in manager.layers <==> l in old(manager.layers) && l != layer
    ensures forall l :: l in manager.layers ==> l.Look() == old(l.Look())
  {
    ghost var sheets, h := manager.Sheets(), IndexOf(manager.stack, layer);
    RemoveQuietly(manager, layer, h);
    ghost var sheets' := manager.Sheets();
    hide LayerManager.Valid, Desktop, Removed, Hidden, IndexOf;
    ClosedIsDesktop(sheets, manager.screen.width, manager.screen.height, h);
    manager.DrawArea(area);
    forall p | manager.screen.On(p)
      ensures manager.screen.At(p) == manager.backBuffer.At(p)
              == Shown(sheets', manager.screen.width, manager.screen.height, p)
    {
      ClosedRedrawn(sheets, manager.screen.width, manager.screen.height, h, area, p);
    }
  }

  method RemoveQuietly(manager: LayerManager, layer: Layer, ghost h: int)
    requires manager.Valid() && layer in manager.layers && h == IndexOf(manager.stack, layer)
    modifies manager
    ensures manager.Valid() && manager.stack == Hidden(old(manager.stack), layer)
    ensures forall l :: l in manager.layers <==> l in old(manager.layers) && l != layer
    ensures manager.Sheets() == Removed(old(manager.Sheets()), h)
  {
    ghost var sheets, was := manager.Sheets(), manager.stack;
    manager.HeightIs(layer);
    manager.OnlyOne(layer);
    manager.RemoveLayer(layer.id);
    ghost var sheets' := manager.Sheets();
    hide LayerManager.Valid, Without, IndexOf;
    LooksKept(was, sheets, sheets', h);
  }

  lemma ClosedIsDesktop(sheets: seq<Sheet>, width: nat, height: nat, h: int)
    requires Desktop(sheets, width, height) && h < |sheets| && h != 0
    ensures Desktop(Removed(sheets, h), width, height)
  {
    if h > 0 {
      WithoutIsDesktop(sheets, width, height, h);
    }
  }

  /** Redrawing the area of a sheet that was taken out, or was not shown, yields the right picture. */
  lemma ClosedRedrawn(sheets: seq<Sheet>, width: nat, height: nat, h: int, area: Rectangle, p: Vector2D)
    requires Desktop(sheets, width, height) && h < |sheets| && h != 0 && Inside(p, width, height)
    requires Desktop(Removed(sheets, h), width, height) && (h > 0 ==> area == sheets[h].Area())
    ensures var rest := Removed(sheets, h); var c := Shown(sheets, width, height, p);
      && Layered(rest, area, p, c) == Shown(rest, width, height, p)
      && (!area.Contains(p) ==> c == Shown(rest, width, height, p))
  {
    if h > 0 {
      RemovedRedrawn(sheets, width, height, h, p);
    } else {
      SuffixRedrawn(sheets, width, height, 0, area, p, Shown(sheets, width, height, p));
      assert sheets[0..] == sheets;
    }
  }

  /** The stack with the layer taken out and put in again directly below the mouse layer. */
  ghost function BelowMouse(stack: seq<Layer>, layer: Layer, mouse: Layer): seq<Layer> {
    var j := IndexOf(Hidden(stack, layer), mouse);
    Inserted(Hidden(stack, layer), if j < 0 then 0 else j, layer)
  }

  lemma BelowMouseIs(stack: seq<Layer>, layer: Layer, mouse: Layer)
    requires mouse in Hidden(stack, layer)
    ensures var rest := Hidden(stack, layer);
      IndexOf(rest, mouse) >= 0 && BelowMouse(stack, layer, mouse) == Inserted(rest, IndexOf(rest, mouse), layer)
  {
  }

  lemma RepaintedIsDesktop(sheets: seq<Sheet>, width: nat, height: nat, i: nat, pixels: Pixels)
    requires Desktop(sheets, width, height) && i < |sheets| && Sized(pixels, sheets[i].width, sheets[i].height)
    ensures Desktop(sheets[i := sheets[i].(data := pixels)], width, height)
    ensures forall p :: !sheets[i].Area().Contains(p) ==> Agree(sheets[i], sheets[i].(data := pixels), p)
  {
    assert sheets[i].(data := pixels).Wf();
  }

  /** Raising an opaque sheet to just below the one at height m keeps the stack a desktop. */
  lemma RaisedIsDesktop(sheets: seq<Sheet>, sheets': seq<Sheet>, width: nat, height: nat, h: int, j: nat, m: nat)
    requires Desktop(sheets, width, height) && h < |sheets| && h != 0 && 0 < m < |sheets| && h != m
    requires j == (if 0 <= h < m then m - 1 else m) && j < |sheets'|
    requires Without(sheets', j) == Removed(sheets, h) && sheets'[j].Wf() && sheets'[j].Opaque()
    requires forall k :: 0 <= k < m ==> sheets[k].Opaque()
    ensures Desktop(sheets', width, height)
  {
    var rest := Removed(sheets, h);
    if h >= 0 {
      WithoutIsDesktop(sheets, width, height, h);
      WithoutAt(sheets, h);
    }
    InsertedIsDesktop(rest, width, height, j, sheets'[j]);
    assert sheets' == Inserted(rest, j, sheets'[j]);
  }
}
