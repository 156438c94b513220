/** Straight lines on a screen of 320 pixels a row. */
module Lines {

  const WORD := 0x1_0000

  type Word = w: int | 0 <= w < 0x1_0000

  datatype Point = Point(x: Word, y: Word)

  /** Where in video memory a pixel is; the product is cut to 16 bits. */
  function Index(p: Point): Word { (320 * p.y + p.x) % 0x1_0000 }

  /** On the screen that is row by row, 320 bytes each, from left to right. */
  lemma OnScreen(p: Point)
    requires p.x < 320 && p.y < 200
    ensures Index(p) / 320 == p.y && Index(p) % 320 == p.x
  {
  }

  /** A 32-bit difference stored in 16 bits with a sign. */
  function Signed(d: int): (s: int)
    ensures -0x8000 <= s < 0x8000
    ensures -0x8000 <= d < 0x8000 ==> s == d
    ensures (s - d) % 0x1_0000 == 0
  {
    var w := d % 0x1_0000;
    if w < 0x8000 then w else w - 0x1_0000
  }

  function Abs(a: int): int { if a < 0 then -a else a }

  function Sgn(a: int): int { if a < 0 then -1 else if a > 0 then 1 else 0 }

  /** How far a point is from the ideal line, in rows, times the number of columns. */
  function Deviation(ady: int, adx: int, i: int, off: int): int { Abs(i * ady - off * adx) }

  /** What a line that is no steeper than it is long is: one pixel in every column, in order, and none
      off by more than half a row. */
  ghost predicate Straight(points: seq<Point>, s: Point, e: Point) {
    var dx, dy := e.x - s.x, e.y - s.y;
    && |points| == Abs(dx) + 1 && points[0] == s && points[Abs(dx)] == e
    && forall i :: 0 <= i <= Abs(dx) ==> Placed(points[i], s, dx, dy, i)
  }

  /** A row on the way from one row by a number of rows. */
  predicate OnSide(y: int, from: int, dy: int) {
    if dy < 0 then from + dy <= y <= from else from <= y <= from + dy
  }

  lemma Multiples(d: int, n: int)
    requires 0 <= n
    ensures (1 <= d ==> n <= d * n) && (d <= -1 ==> d * n <= -n)
  {
    if 1 <= d {
      assert 0 <= (d - 1) * n;
    } else if d <= -1 {
      assert 0 <= (-d - 1) * n;
    }
  }

  /** No other row is nearer to the ideal line. */
  lemma Nearest(ady: int, adx: int, i: int, off: int, row: int)
    requires 2 * Deviation(ady, adx, i, off) <= adx
    ensures Deviation(ady, adx, i, off) <= Deviation(ady, adx, i, row)
  {
    assert row * adx == off * adx + (row - off) * adx;
    Multiples(row - off, adx);
  }

  /** The last column is in the last row. */
  lemma LastRow(adx: int, ady: int, off: int)
    requires 0 < adx && 2 * Deviation(ady, adx, adx, off) <= adx
    ensures off == ady
  {
    assert adx * ady - off * adx == (ady - off) * adx;
    Multiples(ady - off, adx);
  }

  /** What drawing some points makes of the video memory. */
  ghost function Painted(before: seq<int>, points: seq<Point>, c: int): (after: seq<int>)
    requires |before| == WORD
    ensures |after| == WORD
  {
    if points == [] then before
    else Painted(before, points[..|points| - 1], c)[Index(points[|points| - 1]) := c]
  }

  /** Their pixels have the colour, and no others have changed. */
  lemma {:induction false} PaintedAt(before: seq<int>, points: seq<Point>, c: int, k: nat)
    requires |before| == WORD && k < WORD
    ensures Painted(before, points, c)[k] == if exists i :: 0 <= i < |points| && Index(points[i]) == k then c else before[k]
  {
    if points != [] {
      var init := points[..|points| - 1];
      PaintedAt(before, init, c, k);
      if exists i :: 0 <= i < |init| && Index(init[i]) == k {
        var i :| 0 <= i < |init| && Index(init[i]) == k;
        assert points[i] == init[i];
      }
    }
  }

  lemma OneMorePoint(before: seq<int>, points: seq<Point>, p: Point, c: int)
    requires |before| == WORD
    ensures Painted(before, points + [p], c) == Painted(before, points, c)[Index(p) := c]
  {
    assert (points + [p])[..|points|] == points;
  }

  /** Part way along: the columns done, and what the error term is. */
  ghost predicate Drawing(points: seq<Point>, s: Point, dx: int, dy: int, i: int, px: int, py: int, y: int) {
    var adx, ady := Abs(dx), Abs(dy);
    && 0 <= i <= adx && |points| == i + 1 && points[0] == s && points[i].x == px && points[i].y == py
    && px == s.x + i * Sgn(dx) && OnSide(py, s.y, dy)
    && ErrorIs(adx, ady, i, Abs(py - s.y), y)
    && forall j :: 0 <= j <= i ==> Placed(points[j], s, dx, dy, j)
  }

  predicate ErrorIs(adx: int, ady: int, i: int, off: int, y: int) {
    y == adx / 2 + i * ady - off * adx && (0 <= y < adx || adx == 0)
  }

  ghost predicate Placed(p: Point, s: Point, dx: int, dy: int, j: int) {
    && p.x == s.x + j * Sgn(dx) && OnSide(p.y, s.y, dy)
    && 2 * Deviation(Abs(dy), Abs(dx), j, Abs(p.y - s.y)) <= Abs(dx)
    && (dx == 0 || 2 * (j * Abs(dy) - Abs(p.y - s.y) * Abs(dx)) < Abs(dx))  // half a row off only when ahead
  }

  /** A column has one row to choose. */
  lemma OneRow(p: Point, q: Point, s: Point, dx: int, dy: int, j: int)
    requires Placed(p, s, dx, dy, j) && Placed(q, s, dx, dy, j) && dx != 0
    ensures p == q
  {
    OneMultiple(j * Abs(dy), Abs(p.y - s.y), Abs(q.y - s.y), Abs(dx));
  }

  lemma OneMultiple(n: int, a: int, b: int, d: int)
    requires 0 < d && -d <= 2 * (n - a * d) < d && -d <= 2 * (n - b * d) < d
    ensures a == b
  {
    var p, q := a * d, b * d;
    assert (a - b) * d == p - q;
    Multiples(a - b, d);
  }

  /** No row past the last is close to a column before the last. */
  lemma RowsWithin(adx: int, ady: int, i: int, off: int)
    requires 0 < adx && 0 <= ady && 0 <= i <= adx && 2 * Deviation(ady, adx, i, off) <= adx
    ensures off <= ady
  {
    var p, q, r := i * ady, off * adx, adx * ady;
    assert (adx - i) * ady == r - p && (off - ady) * adx == q - r;
    Multiples(off - ady, adx);
    assert 0 <= (adx - i) * ady;
  }

  lemma OneStep(k: int, n: int)
    ensures (k + 1) * n == k * n + n
  {
  }

  /** The error term keeps count of rows. */
  lemma ErrorTerm(adx: int, ady: int, i: int, off: int, y: int)
    requires 0 <= ady <= adx && 0 <= i < adx && 0 <= off <= ady && ErrorIs(adx, ady, i, off, y)
    ensures var y1 := y + ady; var off' := if adx <= y1 then off + 1 else off; var y' := if adx <= y1 then y1 - adx else y1;
      && ErrorIs(adx, ady, i + 1, off', y') && off' <= ady && 0 <= y < adx
      && 2 * Deviation(ady, adx, i + 1, off') <= adx && 2 * ((i + 1) * ady - off' * adx) < adx
  {
    OneStep(i, ady);
    OneStep(off, adx);
    var off' := if adx <= y + ady then off + 1 else off;
    var p, q := (i + 1) * ady, off' * adx;
    assert 2 * Abs(p - q) <= adx;
    RowsWithin(adx, ady, i + 1, off');
  }

  lemma DrawingNext(points: seq<Point>, s: Point, dx: int, dy: int, i: int, p: Point, y: int, p': Point, y': int)
    requires Abs(dy) <= Abs(dx) <= 0x7FFF && i < Abs(dx) && Drawing(points, s, dx, dy, i, p.x, p.y, y)
    requires p'.x == p.x + Sgn(dx)
    requires p'.y == if Abs(dx) <= y + Abs(dy) then p.y + Sgn(dy) else p.y
    requires y' == if Abs(dx) <= y + Abs(dy) then y + Abs(dy) - Abs(dx) else y + Abs(dy)
    ensures Drawing(points + [p'], s, dx, dy, i + 1, p'.x, p'.y, y')
  {
    hide ErrorIs, Deviation;
    var adx, ady, off := Abs(dx), Abs(dy), Abs(p.y - s.y);
    ErrorTerm(adx, ady, i, off, y);
    assert dy == 0 ==> y + ady < adx;
    assert Abs(p'.y - s.y) == if adx <= y + ady then off + 1 else off;
    OneStep(i, Sgn(dx));
    assert Placed(p', s, dx, dy, i + 1);
    hide Placed;
  }

  /** Half a steep line's height and its width fit a word together, and reach the height from half of it on. */
  lemma HalfStep(adx: int, ady: int)
    requires 0 <= adx < ady <= 0x8000
    ensures (ady / 2 + adx) % WORD == ady / 2 + adx && (ady / 2 + adx >= ady <==> 2 * adx >= ady)
  {
  }

  /** A pixel next to one on the screen does not wrap when the line's end does not. */
  lemma NextDoor(p: Word, d: int)
    requires 0 <= p + d < WORD
    ensures (p + Sgn(d)) % WORD == p + Sgn(d)
  {
  }

  class Screen {
    const vram: array<int>

    constructor ()
      ensures fresh(vram) && vram.Length == WORD
    {
      vram := new int[WORD];
    }

    method Pixel(p: Point, c: int)
      requires vram.Length == WORD
      modifies vram
      ensures vram[..] == old(vram[..])[Index(p) := c]
    {
      var index := Index(p);
      vram[index] := c;
    }

    /** Bresenham's line, with 16-bit words. A line that is steeper than it is long gets one step only. */
    method Line(s: Point, e: Point, c: int) returns (ghost points: seq<Point>)
      requires vram.Length == WORD
      modifies vram
      ensures vram[..] == Painted(old(vram[..]), points, c)
      ensures Abs(e.y - s.y) <= Abs(e.x - s.x) <= 0x7FFF ==> Straight(points, s, e)
      ensures Abs(e.x - s.x) < Abs(e.y - s.y) <= 0x7FFF ==>
                && |points| == 2 && points[0] == s && points[1].y == s.y + Sgn(e.y - s.y)
                && points[1].x == s.x + (if 2 * Abs(e.x - s.x) < Abs(e.y - s.y) then 0 else Sgn(e.x - s.x))
                && (points[1] == e <==> Abs(e.y - s.y) == 1)
    {
      hide Painted, Straight;
      var dx, dy := Signed(e.x - s.x), Signed(e.y - s.y);
      var adx, ady := Abs(dx), Abs(dy);
      Pixel(s, c);
      OnePoint(old(vram[..]), s, c);
      if adx >= ady {
        points := Along(s, dx, dy, c, old(vram[..]));
        if adx == Abs(e.x - s.x) <= 0x7FFF && ady == Abs(e.y - s.y) {
          Finished(points, s, e, dx, dy);
        }
      } else {
        points := Steep(s, dx, dy, c, old(vram[..]));
      }
    }

    /** The one step of a line that is steep, after its first pixel. */
    method Steep(s: Point, dx: int, dy: int, c: int, ghost before: seq<int>) returns (ghost points: seq<Point>)
      requires vram.Length == WORD == |before| && vram[..] == Painted(before, [s], c)
      requires -0x8000 <= dx < 0x8000 && -0x8000 <= dy < 0x8000 && Abs(dx) < Abs(dy)
      modifies vram
      ensures vram[..] == Painted(before, points, c) && |points| == 2 && points[0] == s
      ensures 0 <= s.x + dx < WORD && 0 <= s.y + dy < WORD ==>
                points[1].y == s.y + Sgn(dy) && points[1].x == s.x + if 2 * Abs(dx) < Abs(dy) then 0 else Sgn(dx)
    {
      hide Painted;
      var adx, ady := Abs(dx), Abs(dy);
      var x, px := ady / 2, s.x;
      x := (x + adx) % WORD;
      HalfStep(adx, ady);
      if x >= ady {
        x := x - ady;
        px := (px + Sgn(dx)) % WORD;
      }
      var py := (s.y + Sgn(dy)) % WORD;
      if 0 <= s.x + dx < WORD && 0 <= s.y + dy < WORD {
        NextDoor(s.x, dx);
        NextDoor(s.y, dy);
      }
      Pixel(Point(px, py), c);
      OneMorePoint(before, [s], Point(px, py), c);
      points := [s] + [Point(px, py)];
    }

    /** The loop of a line that is not steep, after its first pixel. */
    method Along(s: Point, dx: int, dy: int, c: int, ghost before: seq<int>) returns (ghost points: seq<Point>)
      requires vram.Length == WORD == |before| && vram[..] == Painted(before, [s], c)
      requires -0x8000 <= dx < 0x8000 && -0x8000 <= dy < 0x8000 && Abs(dy) <= Abs(dx)
      modifies vram
      ensures vram[..] == Painted(before, points, c)
      ensures InWords(s, dx, dy) ==>
                exists px, py, y :: Drawing(points, s, dx, dy, Abs(dx), px, py, y)
    {
      hide Painted, Drawing;
      var adx, ady, sdx, sdy := Abs(dx), Abs(dy), Sgn(dx), Sgn(dy);
      var y, px, py := adx / 2, s.x, s.y;
      points := [s];
      Start(s, dx, dy);
      for i := 0 to adx
        invariant 0 <= px < WORD && 0 <= py < WORD && 0 <= y < WORD
        invariant vram[..] == Painted(before, points, c)
        invariant InWords(s, dx, dy) ==> Drawing(points, s, dx, dy, i, px, py, y)
      {
        ghost var p, y0 := Point(px, py), y;
        if InWords(s, dx, dy) {
          InRange(points, s, dx, dy, i, px, py, y);
        }
        y := (y + ady) % WORD;
        if y >= adx {
          y := y - adx;
          py := (py + sdy) % WORD;
        }
        px := (px + sdx) % WORD;
        Pixel(Point(px, py), c);
        if InWords(s, dx, dy) {
          DrawingNext(points, s, dx, dy, i, p, y0, Point(px, py), y);
        }
        OneMorePoint(before, points, Point(px, py), c);
        points := points + [Point(px, py)];
      }
    }
  }

  /** Both ends have coordinates that are words, and no difference is too big. */
  predicate InWords(s: Point, dx: int, dy: int) {
    0 <= s.x + dx < WORD && 0 <= s.y + dy < WORD && Abs(dy) <= Abs(dx) <= 0x7FFF
  }

  lemma OnePoint(before: seq<int>, s: Point, c: int)
    requires |before| == WORD
    ensures Painted(before, [s], c) == before[Index(s) := c]
  {
    assert [] + [s] == [s];
    OneMorePoint(before, [], s, c);
  }

  lemma Start(s: Point, dx: int, dy: int)
    requires Abs(dy) <= Abs(dx)
    ensures Drawing([s], s, dx, dy, 0, s.x, s.y, Abs(dx) / 2)
  {
  }

  lemma Column(i: int, d: int)
    ensures i * Sgn(d) == if d < 0 then -i else if d == 0 then 0 else i
  {
  }

  /** No sum overflows. */
  lemma InRange(points: seq<Point>, s: Point, dx: int, dy: int, i: int, px: int, py: int, y: int)
    requires InWords(s, dx, dy) && i < Abs(dx) && Drawing(points, s, dx, dy, i, px, py, y)
    ensures 0 <= y + Abs(dy) < WORD && 0 <= px + Sgn(dx) < WORD && (Abs(dx) <= y + Abs(dy) ==> 0 <= py + Sgn(dy) < WORD)
  {
    hide ErrorIs, Placed, Deviation;
    ErrorTerm(Abs(dx), Abs(dy), i, Abs(py - s.y), y);
    Column(i, dx);
  }

  /** After the last column the line is complete. */
  lemma Finished(points: seq<Point>, s: Point, e: Point, dx: int, dy: int)
    requires dx == e.x - s.x && dy == e.y - s.y && Abs(dy) <= Abs(dx)
    requires exists px, py, y :: Drawing(points, s, dx, dy, Abs(dx), px, py, y)
    ensures Straight(points, s, e)
  {
    hide ErrorIs, Deviation;
    var px, py, y :| Drawing(points, s, dx, dy, Abs(dx), px, py, y);
    Column(Abs(dx), dx);
    assert Placed(points[Abs(dx)], s, dx, dy, Abs(dx));
    if 0 < Abs(dx) {
      LastRow(Abs(dx), Abs(dy), Abs(py - s.y));
    }
  }
}
