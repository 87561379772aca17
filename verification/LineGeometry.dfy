/**
 The points of a straight line on the pixel grid, without accumulation: one point for every step along the longer axis,
 with the other coordinate rounded to the nearest grid line. framebuf::line is proved to draw these.
 */
module LineGeometry {
  import opened Base

  function Abs(v: int): nat { if v < 0 then -v else v }

  /** `i` steps from `start` in the direction of `stop`; the code goes down when the two are equal. */
  function Along(start: int, stop: int, i: int): int { if stop > start then start + i else start - i }

  predicate Steep(x1: int, y1: int, x2: int, y2: int) { Abs(y2 - y1) > Abs(x2 - x1) }

  /** Steps along the longer axis. */
  function Steps(x1: int, y1: int, x2: int, y2: int): nat {
    if Steep(x1, y1, x2, y2) then Abs(y2 - y1) else Abs(x2 - x1)
  }

  /** The distance `short * i / long`, rounded to the nearest integer, halves up. */
  function Rounded(long: nat, short: nat, i: nat): int {
    if long == 0 then 0 else (2 * (short * i) + long) / (2 * long)
  }

  function PointAt(x1: int, y1: int, x2: int, y2: int, i: nat): (int, int) {
    if Steep(x1, y1, x2, y2) then
      (Along(x1, x2, Rounded(Abs(y2 - y1), Abs(x2 - x1), i)), Along(y1, y2, i))
    else
      (Along(x1, x2, i), Along(y1, y2, Rounded(Abs(x2 - x1), Abs(y2 - y1), i)))
  }

  /** Whether a pixel is among the first `n` points. */
  ghost predicate Among(x1: int, y1: int, x2: int, y2: int, n: nat, px: int, py: int) {
    exists i: nat :: i < n && PointAt(x1, y1, x2, y2, i) == (px, py)
  }

  ghost predicate OnLine(x1: int, y1: int, x2: int, y2: int, px: int, py: int) {
    Among(x1, y1, x2, y2, Steps(x1, y1, x2, y2) + 1, px, py)
  }

  /** A rounding error of at most half a step belongs to one value only. */
  lemma RoundedIs(long: nat, short: nat, i: nat, k: int)
    requires long > 0 && -(long as int) <= 2 * (short * i) - 2 * (long * k) < long
    ensures Rounded(long, short, i) == k
  {
    assert (2 * long) * k == 2 * (long * k);
    Divided(2 * (short * i) + long, 2 * long, k);
  }

  /** The half-pixel bound. */
  lemma HalfPixel(long: nat, short: nat, i: nat)
    requires long > 0
    ensures -(long as int) <= 2 * (short * i) - 2 * (long * Rounded(long, short, i)) < long
  {
    var n, d := 2 * (short * i) + long, 2 * long;
    assert d * (n / d) <= n < d * (n / d) + d;
    assert d * (n / d) == 2 * (long * (n / d));
  }

  /** One step along the longer axis moves the other coordinate by nothing or by one, as the error term says. */
  lemma NextRounded(long: nat, short: nat, i: nat)
    requires 0 < long && short <= long
    ensures var k := Rounded(long, short, i);
            Rounded(long, short, i + 1)
              == if 2 * (short * i) - 2 * (long * k) + 2 * short - long >= 0 then k + 1 else k
  {
    var k := Rounded(long, short, i);
    HalfPixel(long, short, i);
    assert short * (i + 1) == short * i + short;
    assert long * (k + 1) == long * k + long;
    if 2 * (short * i) - 2 * (long * k) + 2 * short - long >= 0 {
      RoundedIs(long, short, i + 1, k + 1);
    } else {
      RoundedIs(long, short, i + 1, k);
    }
  }

  lemma RoundedEnds(long: nat, short: nat)
    requires 0 < long
    ensures Rounded(long, short, 0) == 0 && Rounded(long, short, long) == short
  {
    RoundedIs(long, short, 0, 0);
    assert short * long == long * short;
    RoundedIs(long, short, long, short);
  }

  /** The other coordinate stays between the endpoints. */
  lemma RoundedWithin(long: nat, short: nat, i: nat)
    requires 0 < long && short <= long && i <= long
    ensures 0 <= Rounded(long, short, i) <= short
  {
    var k := Rounded(long, short, i);
    HalfPixel(long, short, i);
    Ordered(long, short + 1, k);
    Ordered(long, k, -1);
    Ordered(short, i, long);
    assert long * (short + 1) == long * short + long;
  }

  /** The line starts and ends where it should. */
  lemma Ends(x1: int, y1: int, x2: int, y2: int)
    ensures PointAt(x1, y1, x2, y2, 0) == (x1, y1)
    ensures PointAt(x1, y1, x2, y2, Steps(x1, y1, x2, y2)) == (x2, y2)
  {
    var dx, dy := Abs(x2 - x1), Abs(y2 - y1);
    if dy > dx {
      RoundedEnds(dy, dx);
    } else if dx > 0 {
      RoundedEnds(dx, dy);
    }
  }

  /** Signs drop out of the cross product of steps taken in the directions of the line. */
  lemma Signed(dx: int, dy: int, a: int, b: int)
    ensures var sa, sb := if dx > 0 then a else -a, if dy > 0 then b else -b;
            Abs(2 * (sb * dx - sa * dy)) == Abs(2 * (b * Abs(dx) - a * Abs(dy)))
  {
    var sa, sb := if dx > 0 then a else -a, if dy > 0 then b else -b;
    if dx > 0 {
    } else {
      assert sb * dx == -(sb * Abs(dx)) && sa * dy == -(a * dy);
    }
    if dy > 0 {
    } else {
      assert sb * dx == -(b * dx) && sa * dy == -(sa * Abs(dy));
    }
  }

  lemma AccurateShallow(x1: int, y1: int, x2: int, y2: int, i: nat)
    requires !Steep(x1, y1, x2, y2) && x1 != x2
    ensures var (px, py) := PointAt(x1, y1, x2, y2, i);
            Abs(2 * ((py - y1) * (x2 - x1) - (px - x1) * (y2 - y1))) <= Abs(x2 - x1)
  {
    var dx, dy := Abs(x2 - x1), Abs(y2 - y1);
    var k := Rounded(dx, dy, i);
    HalfPixel(dx, dy, i);
    hide Rounded;
    Signed(x2 - x1, y2 - y1, i, k);
    assert dx * k == k * dx && dy * i == i * dy;
  }

  lemma AccurateSteep(x1: int, y1: int, x2: int, y2: int, i: nat)
    requires Steep(x1, y1, x2, y2)
    ensures var (px, py) := PointAt(x1, y1, x2, y2, i);
            Abs(2 * ((py - y1) * (x2 - x1) - (px - x1) * (y2 - y1))) <= Abs(y2 - y1)
  {
    var dx, dy := Abs(x2 - x1), Abs(y2 - y1);
    var k := Rounded(dy, dx, i);
    HalfPixel(dy, dx, i);
    hide Rounded;
    Signed(x2 - x1, y2 - y1, k, i);
    assert dy * k == k * dy && dx * i == i * dx;
  }

  /**
   Every point of the line lies within half a pixel of the ideal line, measured along the shorter axis: twice the cross
   product with the line's direction is no more than its longer extent.
   */
  lemma Accurate(x1: int, y1: int, x2: int, y2: int, i: nat)
    ensures var (px, py) := PointAt(x1, y1, x2, y2, i);
            Abs(2 * ((py - y1) * (x2 - x1) - (px - x1) * (y2 - y1))) <= Steps(x1, y1, x2, y2)
  {
    if Steep(x1, y1, x2, y2) {
      AccurateSteep(x1, y1, x2, y2, i);
    } else if x1 != x2 {
      AccurateShallow(x1, y1, x2, y2, i);
    }
  }

  /** Neighbouring points of the line touch, at least by a corner. */
  lemma Connected(x1: int, y1: int, x2: int, y2: int, i: nat)
    requires i < Steps(x1, y1, x2, y2)
    ensures var (px, py) := PointAt(x1, y1, x2, y2, i);
            var (qx, qy) := PointAt(x1, y1, x2, y2, i + 1);
            Abs(qx - px) <= 1 && Abs(qy - py) <= 1 && (px, py) != (qx, qy)
  {
    var dx, dy := Abs(x2 - x1), Abs(y2 - y1);
    if dy > dx {
      NextRounded(dy, dx, i);
    } else {
      NextRounded(dx, dy, i);
    }
  }
}
