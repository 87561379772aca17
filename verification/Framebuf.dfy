/** The drawing functions of display/framebuf.cpp over the bit-packed pixel store. */
module Framebuf {
  import opened Base
  import opened MonoVlsbModel
  import opened LineGeometry

  /** One more point drawn. */
  lemma AmongNext(x1: int, y1: int, x2: int, y2: int, n: nat, px: int, py: int)
    ensures Among(x1, y1, x2, y2, n + 1, px, py) <==>
            Among(x1, y1, x2, y2, n, px, py) || PointAt(x1, y1, x2, y2, n) == (px, py)
  {
    if Among(x1, y1, x2, y2, n, px, py) {
      var i: nat :| i < n && PointAt(x1, y1, x2, y2, i) == (px, py);
      assert i < n + 1;
    }
    if PointAt(x1, y1, x2, y2, n) == (px, py) {
      assert n < n + 1;
    }
  }

  /** Plotting a point if it is in the frame. */
  method Plot(fb: MonoVlsb, x: u16, y: u16, color: nat)
    requires fb.Valid()
    modifies fb.buffer
    ensures forall px, py :: fb.InFrame(px, py) ==>
              fb.Pixel(px, py) == if (x, y) == (px, py) then color != 0 else old(fb.Pixel(px, py))
  {
    if x < fb.width && y < fb.height {
      fb.SetPixel(x, y, color);
    }
  }

  /** The point `i` steps along, for a walk along the longer axis from `a1` towards `a2`. */
  lemma WalkPoint(x1: u16, y1: u16, x2: u16, y2: u16, i: nat)
    ensures var steep, dx, dy := Steep(x1, y1, x2, y2), Abs(x2 - x1), Abs(y2 - y1);
            PointAt(x1, y1, x2, y2, i)
              == if steep then (Along(x1, x2, Rounded(dy, dx, i)), Along(y1, y2, i))
                 else (Along(x1, x2, i), Along(y1, y2, Rounded(dx, dy, i)))
  {
  }

  /**
   The walk of framebuf::line along its longer axis, from `a1`, `b1` on. The coordinates are 16-bit variables, so no
   step of the walk wraps around.
   */
  method Walk(fb: MonoVlsb, a1: u16, b1: u16, dx: nat, dy: nat, sx: int, sy: int, steep: bool, color: nat,
              ghost a2: u16, ghost b2: u16, ghost x1: u16, ghost y1: u16, ghost x2: u16, ghost y2: u16)
    requires fb.Valid() && dx == Abs(a2 - a1) && dy == Abs(b2 - b1) && dy <= dx && steep == Steep(x1, y1, x2, y2)
    requires (sx == if a2 > a1 then 1 else -1) && (sy == if b2 > b1 then 1 else -1)
    requires (a1, b1, a2, b2) == if steep then (y1, x1, y2, x2) else (x1, y1, x2, y2)
    modifies fb.buffer
    ensures forall px, py :: fb.InFrame(px, py) ==>
              fb.Pixel(px, py) == if Among(x1, y1, x2, y2, dx, px, py) then color != 0 else old(fb.Pixel(px, py))
  {
    hide PointAt, Among, Rounded;
    var a: u16, b: u16 := a1, b1;
    var e := 2 * dy - dx;
    NoneYet(x1, y1, x2, y2);
    if dx > 0 {
      RoundedEnds(dx, dy);
    }
    for i := 0 to dx
      invariant a == Along(a1, a2, i)
      invariant dx > 0 ==> b == Along(b1, b2, Rounded(dx, dy, i))
      invariant dx > 0 ==> e == 2 * (dy * i) - 2 * (dx * Rounded(dx, dy, i)) + 2 * dy - dx
      invariant forall px, py :: fb.InFrame(px, py) ==>
                  fb.Pixel(px, py) == if Among(x1, y1, x2, y2, i, px, py) then color != 0 else old(fb.Pixel(px, py))
    {
      WalkPoint(x1, y1, x2, y2, i);
      forall px, py
        ensures Among(x1, y1, x2, y2, i + 1, px, py) <==>
                Among(x1, y1, x2, y2, i, px, py) || PointAt(x1, y1, x2, y2, i) == (px, py)
      {
        AmongNext(x1, y1, x2, y2, i, px, py);
      }
      if steep {
        Plot(fb, b, a, color);
      } else {
        Plot(fb, a, b, color);
      }
      b, e := Turn(i, b1, b, b2, dx, dy, sy, e);
      a := a + sx;
      e := e + 2 * dy;
      assert dy * (i + 1) == dy * i + dy;
    }
  }

  /** The inner loop: one step sideways, or none. */
  method Turn(ghost i: nat, ghost b1: u16, b0: u16, ghost b2: u16, dx: nat, dy: nat, sy: int, e0: int)
    returns (b: u16, e: int)
    requires i < dx && dy == Abs(b2 - b1) && dy <= dx && (sy == if b2 > b1 then 1 else -1)
    requires b0 == Along(b1, b2, Rounded(dx, dy, i))
    requires e0 == 2 * (dy * i) - 2 * (dx * Rounded(dx, dy, i)) + 2 * dy - dx
    ensures b == Along(b1, b2, Rounded(dx, dy, i + 1))
    ensures e == 2 * (dy * i) - 2 * (dx * Rounded(dx, dy, i + 1)) + 2 * dy - dx
  {
    hide Rounded;
    b, e := b0, e0;
    ghost var k := Rounded(dx, dy, i);
    HalfPixel(dx, dy, i);
    NextRounded(dx, dy, i);
    RoundedWithin(dx, dy, i);
    RoundedWithin(dx, dy, i + 1);
    assert dx * (k + 1) == dx * k + dx;
    ghost var turns := 0;
    while e >= 0
      invariant 0 <= turns <= 1 && b == Along(b1, b2, k + turns)
      invariant turns == 0 ==> e == e0
      invariant turns == 1 ==> e == e0 - 2 * dx && e0 >= 0 && e < 0
      decreases 1 - turns
    {
      b := b + sy;
      e := e - 2 * dx;
      turns := turns + 1;
    }
  }

  lemma NoneYet(x1: u16, y1: u16, x2: u16, y2: u16)
    ensures forall px, py :: !Among(x1, y1, x2, y2, 0, px, py)
  {
  }

  /** framebuf::line, for all 16-bit endpoints, in the frame or not: the line's pixels in the frame are set. */
  method Line(fb: MonoVlsb, x1: u16, y1: u16, x2: u16, y2: u16, color: nat)
    requires fb.Valid()
    modifies fb.buffer
    ensures forall px, py :: fb.InFrame(px, py) ==>
              fb.Pixel(px, py) == if OnLine(x1, y1, x2, y2, px, py) then color != 0 else old(fb.Pixel(px, py))
  {
    hide PointAt, Among, Rounded;
    var dx := x2 - x1;
    var sx;
    if dx > 0 {
      sx := 1;
    } else {
      dx := -dx;
      sx := -1;
    }
    var dy := y2 - y1;
    var sy;
    if dy > 0 {
      sy := 1;
    } else {
      dy := -dy;
      sy := -1;
    }
    if dy > dx {
      Walk(fb, y1, x1, dy, dx, sy, sx, true, color, y2, x2, x1, y1, x2, y2);
    } else {
      Walk(fb, x1, y1, dx, dy, sx, sy, false, color, x2, y2, x1, y1, x2, y2);
    }
    ghost var n := Steps(x1, y1, x2, y2);
    Ends(x1, y1, x2, y2);
    forall px, py
      ensures Among(x1, y1, x2, y2, n + 1, px, py) <==>
              Among(x1, y1, x2, y2, n, px, py) || PointAt(x1, y1, x2, y2, n) == (px, py)
    {
      AmongNext(x1, y1, x2, y2, n, px, py);
    }
    Plot(fb, x2, y2, color);
  }

  /** `int16_t`. */
  type i16 = x: int | -32768 <= x < 32768

  /** Whether the loops have passed `v`, going up or down from their start to `at`. */
  predicate Passed(v: int, at: int, step: int) { if step > 0 then v < at else v > at }

  /** Whether the copy to a pixel has been made when the loops stand at `x`, `y`. */
  predicate Copied(fb: MonoVlsb, px: int, py: int, xstep: i16, ystep: i16, x: int, y: int, dx: int, dy: int) {
    fb.InFrame(px - xstep, py - ystep) && (Passed(py, y, dy) || (py == y && Passed(px, x, dx)))
  }

  /**
   framebuf::scroll, for all steps: as if through a second buffer, every pixel whose source is in the frame gets the
   source's old value, and the others, which lose theirs to no one, keep what they had. Steps as large as the frame
   change nothing.
   */
  method Scroll(fb: MonoVlsb, xstep: i16, ystep: i16)
    requires fb.Valid()
    modifies fb.buffer
    ensures forall px, py :: fb.InFrame(px, py) ==>
              fb.Pixel(px, py) == if fb.InFrame(px - xstep, py - ystep) then old(fb.Pixel(px - xstep, py - ystep))
                                  else old(fb.Pixel(px, py))
  {
    hide MonoVlsb.Pixel, MonoVlsb.Valid, MonoVlsb.Index;
    var sx, xend, dx: int, y, yend, dy: int;
    if xstep < 0 {
      sx := 0;
      xend := fb.width + xstep;
      if xend <= 0 {
        return;
      }
      dx := 1;
    } else {
      sx := fb.width - 1;
      xend := xstep - 1;
      if xend >= sx {
        return;
      }
      dx := -1;
    }
    if ystep < 0 {
      y := 0;
      yend := fb.height + ystep;
      if yend <= 0 {
        return;
      }
      dy := 1;
    } else {
      y := fb.height - 1;
      yend := ystep - 1;
      if yend >= y {
        return;
      }
      dy := -1;
    }
    while y != yend
      invariant if dy > 0 then 0 <= y <= yend else yend <= y < fb.height
      invariant forall px, py :: fb.InFrame(px, py) ==>
                  fb.Pixel(px, py) == if Copied(fb, px, py, xstep, ystep, sx, y, dx, dy)
                                      then old(fb.Pixel(px - xstep, py - ystep)) else old(fb.Pixel(px, py))
      decreases (yend - y) * dy
    {
      var x := sx;
      while x != xend
        invariant if dx > 0 then 0 <= x <= xend else xend <= x < fb.width
        invariant forall px, py :: fb.InFrame(px, py) ==>
                    fb.Pixel(px, py) == if Copied(fb, px, py, xstep, ystep, x, y, dx, dy)
                                        then old(fb.Pixel(px - xstep, py - ystep)) else old(fb.Pixel(px, py))
        decreases (xend - x) * dx
      {
        var color := fb.GetPixel(x - xstep, y - ystep);
        fb.SetPixel(x, y, color);
        x := x + dx;
      }
      y := y + dy;
    }
  }

  function Max(a: int, b: int): int { if a > b then a else b }

  /** The colour a source pixel is copied with. */
  function Colour(source: MonoVlsb, palette: MonoVlsb?, x: int, y: int): nat
    requires source.Valid() && source.InFrame(x, y)
    requires palette != null ==> palette.Valid() && palette.InFrame(0, 0) && palette.InFrame(1, 0)
    reads source.buffer, if palette == null then {} else {palette.buffer}
  {
    var own := if source.Pixel(x, y) then 1 else 0;
    if palette == null then own else if palette.Pixel(own, 0) then 1 else 0
  }

  /**
   framebuf::blit, from another frame placed with its corner at `x`, `y`, anywhere: the part that falls into the frame
   is copied, through the palette if there is one, except where its colour is the key.
   */
  method Blit(fb: MonoVlsb, source: MonoVlsb, x: i16, y: i16, key: nat, palette: MonoVlsb?)
    requires fb.Valid() && source.Valid() && source.buffer != fb.buffer
    requires palette != null ==>
               palette.Valid() && palette.InFrame(0, 0) && palette.InFrame(1, 0) && palette.buffer != fb.buffer
    modifies fb.buffer
    ensures forall px, py :: fb.InFrame(px, py) ==>
              fb.Pixel(px, py) ==
                if source.InFrame(px - x, py - y) && Colour(source, palette, px - x, py - y) != key
                then Colour(source, palette, px - x, py - y) != 0
                else old(fb.Pixel(px, py))
  {
    hide MonoVlsb.Pixel, MonoVlsb.Valid, MonoVlsb.Index;
    if x >= fb.width || y >= fb.height || 0 - (x as int) >= source.width || 0 - (y as int) >= source.height {
      return;
    }
    var x0, y0 := Max(0, x), Max(0, y);
    var x1, y1 := Max(0, 0 - (x as int)), Max(0, 0 - (y as int));
    var x0end := Min(fb.width, x + source.width);
    var y0end := Min(fb.height, y + source.height);
    ghost var top := y0;
    while y0 < y0end
      invariant top <= y0 <= Max(top, y0end) && y1 == y0 - y
      invariant forall px, py :: fb.InFrame(px, py) ==>
                  fb.Pixel(px, py) ==
                    if source.InFrame(px - x, py - y) && py < y0 && Colour(source, palette, px - x, py - y) != key
                    then Colour(source, palette, px - x, py - y) != 0
                    else old(fb.Pixel(px, py))
    {
      var cx0, cx1 := x0, x1;
      while cx0 < x0end
        invariant x0 <= cx0 <= Max(x0, x0end) && cx1 == cx0 - x
        invariant forall px, py :: fb.InFrame(px, py) ==>
                    fb.Pixel(px, py) ==
                      if source.InFrame(px - x, py - y) && (py < y0 || (py == y0 && px < cx0))
                         && Colour(source, palette, px - x, py - y) != key
                      then Colour(source, palette, px - x, py - y) != 0
                      else old(fb.Pixel(px, py))
      {
        var col := source.GetPixel(cx1, y1);
        if palette != null {
          col := palette.GetPixel(col, 0);
        }
        assert col == Colour(source, palette, cx1, y1);
        if col != key {
          fb.SetPixel(cx0, y0, col);
        }
        cx1 := cx1 + 1;
        cx0 := cx0 + 1;
      }
      y1 := y1 + 1;
      y0 := y0 + 1;
    }
  }
}
