/** What a stack of windows looks like, and when redrawing a part of it restores that look. */
module Compositing {
  import opened Results
  import opened Graphics
  import opened FrameBuffers
  import opened Stacks
  import opened Windows

  /** The topmost sheet that puts a colour at p; -1 if none does. */
  ghost function Top(sheets: seq<Sheet>, p: Vector2D): int
    requires forall s :: s in sheets ==> s.Wf()
  {
    var n := |sheets| - 1;
    if sheets == [] then -1 else if sheets[n].Paints(p) then n else Top(sheets[..n], p)
  }

  lemma {:induction false} TopIs(sheets: seq<Sheet>, p: Vector2D)
    requires forall s :: s in sheets ==> s.Wf()
    ensures -1 <= Top(sheets, p) < |sheets|
    ensures Top(sheets, p) >= 0 ==> sheets[Top(sheets, p)].Paints(p)
    ensures forall i :: Top(sheets, p) < i < |sheets| ==> !sheets[i].Paints(p)
  {
    if sheets != [] {
      TopIs(sheets[..|sheets| - 1], p);
    }
  }

  lemma TopUnique(sheets: seq<Sheet>, p: Vector2D, t: nat)
    requires forall s :: s in sheets ==> s.Wf()
    requires t < |sheets| && sheets[t].Paints(p)
    requires forall i :: t < i < |sheets| ==> !sheets[i].Paints(p)
    ensures Top(sheets, p) == t
  {
  }

  /** A desktop: an opaque sheet at the bottom fills the screen, and the sheets with a transparent
      colour are above all opaque ones. */
  ghost predicate Desktop(sheets: seq<Sheet>, width: nat, height: nat) {
    && |sheets| > 0
    && (forall s :: s in sheets ==> s.Wf())
    && sheets[0].Opaque()
    && (forall p :: Inside(p, width, height) ==> sheets[0].Area().Contains(p))
    && (forall i, j :: 0 <= i < j < |sheets| && sheets[j].Opaque() ==> sheets[i].Opaque())
  }

  /** The colour the whole stack shows at p: that of the topmost sheet with a colour there. */
  ghost function Shown(sheets: seq<Sheet>, width: nat, height: nat, p: Vector2D): PixelColor
    requires Desktop(sheets, width, height) && Inside(p, width, height)
  {
    TopIs(sheets, p);
    sheets[Top(sheets, p)].ColorAt(p)
  }

  /** The colour at p after drawing the sheets for the area, bottom to top, over colour c. */
  ghost function Layered(sheets: seq<Sheet>, area: Rectangle, p: Vector2D, c: PixelColor): PixelColor
    requires forall s :: s in sheets ==> s.Wf()
  {
    var n := |sheets| - 1;
    if sheets == [] then c else sheets[n].Over(area, p, Layered(sheets[..n], area, p, c))
  }

  /** One sheet more. */
  lemma LayeredStep(sheets: seq<Sheet>, from: nat, i: nat, area: Rectangle)
    requires from <= i < |sheets| && forall s :: s in sheets ==> s.Wf()
    ensures forall p, c :: Layered(sheets[from..i + 1], area, p, c) == sheets[i].Over(area, p, Layered(sheets[from..i], area, p, c))
  {
    assert sheets[from..i + 1][..i - from] == sheets[from..i];
  }

  /** The last sheet drawn at p decides its colour. */
  lemma {:induction false} LayeredIs(sheets: seq<Sheet>, area: Rectangle, p: Vector2D, c: PixelColor) returns (t: int)
    requires forall s :: s in sheets ==> s.Wf()
    ensures -1 <= t < |sheets|
    ensures t >= 0 ==> sheets[t].Paints(p) && (!sheets[t].Opaque() || area.Contains(p))
    ensures Layered(sheets, area, p, c) == if t < 0 then c else sheets[t].ColorAt(p)
    ensures forall i :: t < i < |sheets| ==> !(sheets[i].Paints(p) && (!sheets[i].Opaque() || area.Contains(p)))
  {
    if sheets == [] {
      t := -1;
    } else {
      var n := |sheets| - 1;
      t := LayeredIs(sheets[..n], area, p, c);
      if sheets[n].Paints(p) && (!sheets[n].Opaque() || area.Contains(p)) {
        t := n;
      }
    }
  }

  /** Drawing the sheets from h on for the area puts a colour at p. */
  ghost predicate Redrawn(sheets: seq<Sheet>, h: nat, area: Rectangle, p: Vector2D)
    requires forall s :: s in sheets ==> s.Wf()
  {
    exists i :: h <= i < |sheets| && sheets[i].Paints(p) && (!sheets[i].Opaque() || area.Contains(p))
  }

  /** Drawing the sheets from h on for an area gives p its right colour exactly if p had it already, or
      gets a colour at all. */
  lemma SuffixRedrawn(sheets: seq<Sheet>, width: nat, height: nat, h: nat, area: Rectangle, p: Vector2D, c: PixelColor)
    requires Desktop(sheets, width, height) && Inside(p, width, height) && h < |sheets|
    ensures Layered(sheets[h..], area, p, c) == Shown(sheets, width, height, p) <==>
            c == Shown(sheets, width, height, p) || Redrawn(sheets, h, area, p)
    ensures area.Contains(p) && sheets[h].Opaque() && sheets[h].Area().Contains(p) ==> Redrawn(sheets, h, area, p)
  {
    var t := LayeredIs(sheets[h..], area, p, c);
    assert forall i :: h <= i < |sheets| ==> sheets[i] == sheets[h..][i - h];
    if t >= 0 {
      TopUnique(sheets, p, h + t);
    }
    assert sheets[h].Opaque() && sheets[h].Area().Contains(p) ==> sheets[h].Paints(p);
  }

  // ---------------------------------------------------------------- changes to the stack

  /** The two sheets put the same colour at p, or none. */
  ghost predicate Agree(s: Sheet, s': Sheet, p: Vector2D)
    requires s.Wf() && s'.Wf()
  {
    s.Paints(p) == s'.Paints(p) && (s.Paints(p) ==> s.ColorAt(p) == s'.ColorAt(p))
  }

  /** A part of an opaque sheet was scrolled to dst, in coordinates of the window: where the other pixels are,
      it puts the same colour. So redrawing dst is enough. */
  lemma ScrolledElsewhere(s: Sheet, s': Sheet, dst: Rectangle, p: Vector2D)
    requires s.Wf() && s'.Wf() && s' == s.(data := s'.data) && s.Opaque()
    requires forall q :: Inside(q, s.width, s.height) && !dst.Contains(q) ==> PixelAt(s'.data, q) == PixelAt(s.data, q)
    requires !Rectangle(dst.pos.Add(s.pos), dst.size).Contains(p)
    ensures Agree(s, s', p)
  {
    if s.Area().Contains(p) {
      assert Inside(p.Sub(s.pos), s.width, s.height);
    }
  }

  /** Where sheet i stays as it was, changing it elsewhere changes nothing. */
  lemma ChangedElsewhere(sheets: seq<Sheet>, width: nat, height: nat, i: nat, s: Sheet, p: Vector2D)
    requires Desktop(sheets, width, height) && i < |sheets| && s.Wf()
    requires Desktop(sheets[i := s], width, height) && Inside(p, width, height)
    requires Agree(sheets[i], s, p)
    ensures Shown(sheets[i := s], width, height, p) == Shown(sheets, width, height, p)
  {
    TopIs(sheets, p);
    TopUnique(sheets[i := s], p, Top(sheets, p));
  }

  lemma RemovedElsewhere(sheets: seq<Sheet>, width: nat, height: nat, i: nat, p: Vector2D)
    requires Desktop(sheets, width, height) && i < |sheets|
    requires Desktop(Without(sheets, i), width, height) && Inside(p, width, height)
    requires !sheets[i].Paints(p)
    ensures Shown(Without(sheets, i), width, height, p) == Shown(sheets, width, height, p)
  {
    TopIs(sheets, p);
    var t := Top(sheets, p);
    var rest := Without(sheets, i);
    forall k | 0 <= k < |rest| ensures rest[k] == sheets[if k < i then k else k + 1] {
    }
    TopUnique(rest, p, if t < i then t else t - 1);
  }

  /** Moving a transparent sheet: outside its old place, redrawing any area of the new stack over the
      old picture shows the new picture. */
  lemma TransparentMoved(sheets: seq<Sheet>, width: nat, height: nat, i: nat, s: Sheet, area: Rectangle, p: Vector2D)
    requires Desktop(sheets, width, height) && i < |sheets| && s.Wf()
    requires Desktop(sheets[i := s], width, height) && Inside(p, width, height)
    requires !sheets[i].Opaque() && !s.Opaque() && !sheets[i].Paints(p)
    ensures Layered(sheets[i := s], area, p, Shown(sheets, width, height, p)) == Shown(sheets[i := s], width, height, p)
  {
    var sheets' := sheets[i := s];
    var t := LayeredIs(sheets', area, p, Shown(sheets, width, height, p));
    if t >= 0 {
      TopUnique(sheets', p, t);
    } else {
      assert sheets'[i] == s;
      ChangedElsewhere(sheets, width, height, i, s, p);
    }
  }

  // ---------------------------------------------------------------- redraws that suffice

  /** Move: after redrawing the old place and then the sheet at its new place, p is right on the back
      buffer and on the screen, which receives each redrawn area. */
  lemma MovedRedrawn(sheets: seq<Sheet>, width: nat, height: nat, i: nat, pos: Vector2D, p: Vector2D)
    requires Desktop(sheets, width, height) && 0 < i < |sheets| && Inside(p, width, height)
    ensures var s := sheets[i].(pos := pos); var sheets' := sheets[i := s];
      && s.Wf() && Desktop(sheets', width, height)
      && var c := Shown(sheets, width, height, p);
         var back := Layered(sheets', sheets[i].Area(), p, c);
         var front := if sheets[i].Area().Contains(p) then back else c;
         var back' := Layered(sheets'[i..], s.Area(), p, back);
         var front' := if s.Area().Contains(p) then back' else front;
         back' == front' == Shown(sheets', width, height, p)
  {
    var s := sheets[i].(pos := pos);
    assert sheets[i].Wf();
    var sheets' := sheets[i := s];
    var c := Shown(sheets, width, height, p);
    var back := Layered(sheets', sheets[i].Area(), p, c);
    if sheets[i].Area().Contains(p) {
      SuffixRedrawn(sheets', width, height, 0, sheets[i].Area(), p, c);
      assert sheets'[0..] == sheets';
      SuffixRedrawn(sheets', width, height, i, s.Area(), p, back);
    } else if !s.Opaque() {
      TransparentMoved(sheets, width, height, i, s, sheets[i].Area(), p);
      SuffixRedrawn(sheets', width, height, i, s.Area(), p, back);
      if !s.Area().Contains(p) {
        ChangedElsewhere(sheets, width, height, i, s, p);
      }
    } else if s.Area().Contains(p) {
      SuffixRedrawn(sheets', width, height, i, s.Area(), p, back);
    } else {
      ChangedElsewhere(sheets, width, height, i, s, p);
      SuffixRedrawn(sheets', width, height, 0, sheets[i].Area(), p, c);
      assert sheets'[0..] == sheets';
      SuffixRedrawn(sheets', width, height, i, s.Area(), p, back);
    }
  }

  lemma MovedIsDesktop(sheets: seq<Sheet>, width: nat, height: nat, i: nat, pos: Vector2D)
    requires Desktop(sheets, width, height) && 0 < i < |sheets|
    ensures Desktop(sheets[i := sheets[i].(pos := pos)], width, height)
  {
    assert sheets[i].Wf();
  }

  /** Sheet i, which put a colour at p, becomes s, and neither s nor a sheet above it does. */
  ghost predicate Erased(sheets: seq<Sheet>, i: nat, s: Sheet, p: Vector2D)
    requires i < |sheets| && s.Wf() && forall s :: s in sheets ==> s.Wf()
  {
    sheets[i].Paints(p) && !s.Paints(p) && forall j :: i < j < |sheets| ==> !sheets[j].Paints(p)
  }

  /** The pixels that a change of sheet i erases have the colour already that comes out beneath. */
  ghost predicate ErasesNothing(sheets: seq<Sheet>, width: nat, height: nat, i: nat, s: Sheet, p: Vector2D)
    requires Desktop(sheets, width, height) && i < |sheets| && s.Wf()
    requires Desktop(sheets[i := s], width, height) && Inside(p, width, height)
  {
    Erased(sheets, i, s, p) ==> sheets[i].ColorAt(p) == Shown(sheets[i := s], width, height, p)
  }

  /** Draw(id, area): a sheet whose pixels changed only inside part is redrawn there. That is enough exactly
      if no pixel of a sheet with a transparent colour was erased: these keep their old colour. */
  lemma ContentRedrawn(sheets: seq<Sheet>, width: nat, height: nat, i: nat, s: Sheet, part: Rectangle, p: Vector2D)
    requires Desktop(sheets, width, height) && i < |sheets| && s.Wf()
    requires Desktop(sheets[i := s], width, height) && Inside(p, width, height)
    requires part.Contains(p) ==> s.Area().Contains(p)
    requires !part.Contains(p) ==> Agree(sheets[i], s, p)
    ensures var c := Shown(sheets, width, height, p); var sheets' := sheets[i := s];
      && (Layered(sheets'[i..], part, p, c) == Shown(sheets', width, height, p) <==>
          ErasesNothing(sheets, width, height, i, s, p))
      && (!part.Contains(p) ==> c == Shown(sheets', width, height, p))
    ensures s.Opaque() ==> ErasesNothing(sheets, width, height, i, s, p)
  {
    var c, sheets' := Shown(sheets, width, height, p), sheets[i := s];
    SuffixRedrawn(sheets', width, height, i, part, p, c);
    if Agree(sheets[i], s, p) {
      ChangedElsewhere(sheets, width, height, i, s, p);
    } else if Erased(sheets, i, s, p) {
      TopUnique(sheets, p, i);
      assert forall j :: i <= j < |sheets| ==> !sheets'[j].Paints(p);
    } else if s.Paints(p) {
      assert sheets'[i].Paints(p);
    } else {
      var j :| i < j < |sheets| && sheets[j].Paints(p);
      assert sheets'[j].Paints(p);
    }
  }

  /** The input for which it is not enough: a window of one pixel becomes transparent above a black one. */
  lemma ErasedPixelStays()
    ensures var black, white, clear := PixelColor(0, 0, 0), PixelColor(1, 1, 1), PixelColor(2, 2, 2);
      var origin := Vector2D(0, 0);
      var bottom, was := Sheet(origin, 1, 1, [[black]], None), Sheet(origin, 1, 1, [[white]], Some(clear));
      var now := was.(data := [[clear]]);
      && Desktop([bottom, was], 1, 1) && Desktop([bottom, now], 1, 1)
      && Shown([bottom, now], 1, 1, origin) == black
      && Layered([now], now.Area(), origin, Shown([bottom, was], 1, 1, origin)) == white
  {
    var black, white, clear := PixelColor(0, 0, 0), PixelColor(1, 1, 1), PixelColor(2, 2, 2);
    var origin := Vector2D(0, 0);
    var bottom, was := Sheet(origin, 1, 1, [[black]], None), Sheet(origin, 1, 1, [[white]], Some(clear));
    var now := was.(data := [[clear]]);
    TopUnique([bottom, was], origin, 1);
    TopUnique([bottom, now], origin, 0);
  }

  /** A sheet that is put into the stack at height j, or comes there from height i (possibly with new
      pixels, but none erased), needs redrawing on its own area only. */
  lemma RaisedRedrawn(sheets: seq<Sheet>, sheets': seq<Sheet>, width: nat, height: nat, i: int, j: nat, p: Vector2D)
    requires Desktop(sheets, width, height) && Desktop(sheets', width, height) && Inside(p, width, height)
    requires j < |sheets'|
    requires (i < 0 && sheets == Without(sheets', j))
             || (0 < i < |sheets| && Without(sheets, i) == Without(sheets', j) && sheets[i].Area() == sheets'[j].Area()
                 && (sheets[i].Paints(p) ==> sheets'[j].Paints(p)))
    ensures var c := Shown(sheets, width, height, p);
      && Layered(sheets'[j..], sheets'[j].Area(), p, c) == Shown(sheets', width, height, p)
      && (!sheets'[j].Area().Contains(p) ==> c == Shown(sheets', width, height, p))
  {
    if !sheets'[j].Paints(p) {
      if i < 0 {
        RemovedElsewhere(sheets', width, height, j, p);
      } else {
        WithoutIsDesktop(sheets, width, height, i);
        RemovedElsewhere(sheets, width, height, i, p);
        RemovedElsewhere(sheets', width, height, j, p);
      }
    }
    SuffixRedrawn(sheets', width, height, j, sheets'[j].Area(), p, Shown(sheets, width, height, p));
  }

  /** Only the bottom sheet is indispensable. */
  lemma WithoutIsDesktop(sheets: seq<Sheet>, width: nat, height: nat, i: nat)
    requires Desktop(sheets, width, height) && 0 < i < |sheets|
    ensures Desktop(Without(sheets, i), width, height)
  {
    var rest := Without(sheets, i);
    forall k | 0 <= k < |rest| ensures rest[k] == sheets[if k < i then k else k + 1] {
    }
  }

  /** An opaque sheet fits in anywhere above the bottom and below the transparent sheets. */
  lemma InsertedIsDesktop(sheets: seq<Sheet>, width: nat, height: nat, j: nat, s: Sheet)
    requires Desktop(sheets, width, height) && 0 < j <= |sheets| && s.Wf() && s.Opaque()
    requires forall k :: 0 <= k < j ==> sheets[k].Opaque()
    ensures Desktop(Inserted(sheets, j, s), width, height)
  {
    var all := Inserted(sheets, j, s);
    forall k | 0 <= k < |all| ensures all[k] == if k < j then sheets[k] else if k == j then s else sheets[k - 1] {
    }
  }

  /** RemoveLayer: redrawing the place the removed sheet had brings out what was beneath. */
  lemma RemovedRedrawn(sheets: seq<Sheet>, width: nat, height: nat, i: nat, p: Vector2D)
    requires Desktop(sheets, width, height) && 0 < i < |sheets| && Inside(p, width, height)
    ensures var rest := Without(sheets, i); var c := Shown(sheets, width, height, p);
      && Desktop(rest, width, height)
      && Layered(rest, sheets[i].Area(), p, c) == Shown(rest, width, height, p)
      && (!sheets[i].Area().Contains(p) ==> c == Shown(rest, width, height, p))
  {
    var rest := Without(sheets, i);
    WithoutIsDesktop(sheets, width, height, i);
    if !sheets[i].Area().Contains(p) {
      RemovedElsewhere(sheets, width, height, i, p);
    }
    SuffixRedrawn(rest, width, height, 0, sheets[i].Area(), p, Shown(sheets, width, height, p));
    assert rest[0..] == rest;
  }
}
