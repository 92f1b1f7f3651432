/** The Hilbert curve of any order, in the textbook arithmetic: real subtraction and
    multiply-add, as the test oracles of `hilbert.rs` have it. */
module HilbertCurve {
  import opened Words

  datatype Point = Point(x: int, y: int)

  function Pow4(n: nat): (p: int)
    ensures p >= 1
  {
    if n == 0 then 1 else 4 * Pow4(n - 1)
  }

  function Abs(a: int): nat {
    if a < 0 then -a else a
  }

  function Manhattan(p: Point, q: Point): nat {
    Abs(p.x - q.x) + Abs(p.y - q.y)
  }

  /** The orientation of the curve in each quadrant: reflected and swapped, swapped, or as is. */
  function Turn(rx: bool, ry: bool, s: int, p: Point): Point {
    if ry then p else if rx then Point(s - 1 - p.y, s - 1 - p.x) else Point(p.y, p.x)
  }

  /** Moves a point of the `s`-square into the quadrant `(rx, ry)` of the `2s`-square. */
  function Place(rx: bool, ry: bool, s: int, p: Point): Point {
    var r := Turn(rx, ry, s, p);
    Point(r.x + (if rx then s else 0), r.y + (if ry then s else 0))
  }

  /** The quadrants in the order in which the curve visits them: `(3 * rx) ^ ry`. */
  function Quadrant(rx: bool, ry: bool): nat {
    if !rx then (if !ry then 0 else 1) else (if ry then 2 else 3)
  }

  /** The index at which the curve enters a quadrant of side `2^n`: `s * s * ((3 * rx) ^ ry)`. */
  function Start(rx: bool, ry: bool, n: nat): nat {
    if !rx then (if !ry then 0 else Pow4(n)) else (if ry then 2 * Pow4(n) else 3 * Pow4(n))
  }

  lemma StartIsProduct(rx: bool, ry: bool, n: nat)
    ensures Start(rx, ry, n) == Pow2(n) * Pow2(n) * Quadrant(rx, ry)
  {
    Pow4IsPow2(n);
    Pow2Adds(n, n);
  }

  /** `d2xy`, after the given number of levels, finest first: level `n` uses index bits `2n`
      and `2n + 1`. */
  function D2xy(levels: nat, d: nat): Point {
    if levels == 0 then Point(0, 0)
    else
      var level := levels - 1;
      var rx := Bit(d, 2 * level + 1);
      var ry := Bit(d, 2 * level) != rx;
      Place(rx, ry, Pow2(level), D2xy(level, d))
  }

  /** `xy2d`, the given number of levels still to go, coarsest first.  A reflection
      complements all `width` bits, of which only those below the level matter. */
  function Xy2d(width: nat, levels: nat, x: nat, y: nat): nat
    requires levels <= width && x < Pow2(width) && y < Pow2(width)
  {
    if levels == 0 then 0
    else
      var level := levels - 1;
      var rx, ry := Bit(x, level), Bit(y, level);
      var full := Pow2(width) - 1;
      Start(rx, ry, level)
      + (if ry then Xy2d(width, level, x, y)
         else if rx then Xy2d(width, level, full - y, full - x)
         else Xy2d(width, level, y, x))
  }

  /** One level of `xy2d`. */
  lemma Xy2dStep(width: nat, level: nat, x: nat, y: nat, u: nat, v: nat)
    requires level < width && x < Pow2(width) && y < Pow2(width)
    requires var full := Pow2(width) - 1;
             Point(u, v) == if Bit(y, level) then Point(x, y)
                            else if Bit(x, level) then Point(full - y, full - x)
                            else Point(y, x)
    ensures u < Pow2(width) && v < Pow2(width)
    ensures Xy2d(width, level + 1, x, y) == Start(Bit(x, level), Bit(y, level), level) + Xy2d(width, level, u, v)
  {
  }

  // ----- bits of sums -----

  lemma {:induction false} Pow4IsPow2(n: nat)
    ensures Pow4(n) == Pow2(2 * n)
  {
    if n > 0 {
      Pow4IsPow2(n - 1);
      assert Pow2(2 * n) == 4 * Pow2(2 * (n - 1));
    }
  }

  lemma {:induction false} D2xyLowBits(levels: nat, d: nat, e: nat)
    requires forall j: nat | j < 2 * levels :: Bit(d, j) == Bit(e, j)
    ensures D2xy(levels, d) == D2xy(levels, e)
  {
    if levels > 0 {
      assert Bit(d, 2 * levels - 1) == Bit(e, 2 * levels - 1);
      assert Bit(d, 2 * levels - 2) == Bit(e, 2 * levels - 2);
      D2xyLowBits(levels - 1, d, e);
    }
  }

  /** The curve of one more level is four copies of the curve, placed in order. */
  lemma D2xyStep(n: nat, rx: bool, ry: bool, r: nat)
    requires r < Pow4(n)
    ensures D2xy(n + 1, Start(rx, ry, n) + r) == Place(rx, ry, Pow2(n), D2xy(n, r))
  {
    var q := Quadrant(rx, ry);
    var d := Start(rx, ry, n) + r;
    Pow4IsPow2(n);
    assert d == q * Pow2(2 * n) + r;
    forall j: nat | j < 2 * n ensures Bit(d, j) == Bit(r, j) {
      LowBits(q, 2 * n, r, j);
    }
    D2xyLowBits(n, d, r);
    LowBits(q, 2 * n, r, 2 * n);
    LowBits(q, 2 * n, r, 2 * n + 1);
    assert Bit(q, 1) == Bit(q / 2, 0);
  }

  /** Every index of the larger curve lies in exactly one of the copies. */
  lemma Split(n: nat, d: nat) returns (rx: bool, ry: bool, r: nat)
    requires d < Pow4(n + 1)
    ensures r < Pow4(n) && d == Start(rx, ry, n) + r
    ensures D2xy(n + 1, d) == Place(rx, ry, Pow2(n), D2xy(n, r))
  {
    var p := Pow4(n);
    if d < p {
      rx, ry, r := false, false, d;
    } else if d < 2 * p {
      rx, ry, r := false, true, d - p;
    } else if d < 3 * p {
      rx, ry, r := true, true, d - 2 * p;
    } else {
      rx, ry, r := true, false, d - 3 * p;
    }
    D2xyStep(n, rx, ry, r);
  }

  lemma PlaceInside(rx: bool, ry: bool, s: int, p: Point)
    requires 0 <= p.x < s && 0 <= p.y < s
    ensures var r := Place(rx, ry, s, p);
            && 0 <= r.x < 2 * s && 0 <= r.y < 2 * s
            && (rx <==> r.x >= s) && (ry <==> r.y >= s)
  {
  }

  lemma {:induction false} D2xyInside(n: nat, d: nat)
    ensures 0 <= D2xy(n, d).x < Pow2(n) && 0 <= D2xy(n, d).y < Pow2(n)
  {
    if n > 0 {
      var rx := Bit(d, 2 * n - 1);
      D2xyInside(n - 1, d);
      PlaceInside(rx, Bit(d, 2 * n - 2) != rx, Pow2(n - 1), D2xy(n - 1, d));
    }
  }

  // ----- adjacency -----

  /** The curve enters its square at the origin and leaves it at the other end of the x axis. */
  lemma {:induction false} Ends(n: nat)
    ensures D2xy(n, 0) == Point(0, 0)
    ensures D2xy(n, Pow4(n) - 1) == Point(Pow2(n) - 1, 0)
  {
    if n > 0 {
      Ends(n - 1);
      D2xyStep(n - 1, false, false, 0);
      LastCopy(n - 1);
    }
  }

  lemma LastCopy(n: nat)
    requires D2xy(n, Pow4(n) - 1) == Point(Pow2(n) - 1, 0)
    ensures D2xy(n + 1, Pow4(n + 1) - 1) == Point(Pow2(n + 1) - 1, 0)
  {
    D2xyStep(n, true, false, Pow4(n) - 1);
    assert 3 * Pow4(n) + (Pow4(n) - 1) == Pow4(n + 1) - 1;
  }

  lemma PlaceIsometry(rx: bool, ry: bool, s: int, p: Point, q: Point)
    ensures Manhattan(Place(rx, ry, s, p), Place(rx, ry, s, q)) == Manhattan(p, q)
  {
  }

  /** Where one copy ends, the next one begins next to it. */
  lemma Crossing(s: int, rx: bool, ry: bool, sx: bool, sy: bool)
    requires s >= 1 && Quadrant(sx, sy) == Quadrant(rx, ry) + 1
    ensures Manhattan(Place(rx, ry, s, Point(s - 1, 0)), Place(sx, sy, s, Point(0, 0))) == 1
  {
  }

  lemma NextCopy(n: nat, rx: bool, ry: bool, r: nat, sx: bool, sy: bool, t: nat)
    requires r < Pow4(n) && t < Pow4(n) && Start(rx, ry, n) + r + 1 == Start(sx, sy, n) + t
    ensures if r + 1 < Pow4(n) then sx == rx && sy == ry && t == r + 1
            else Quadrant(sx, sy) == Quadrant(rx, ry) + 1 && t == 0
  {
  }

  lemma AdjacentPlaces(n: nat, rx: bool, ry: bool, r: nat, sx: bool, sy: bool, t: nat, p: Point, q: Point)
    requires p == Place(rx, ry, Pow2(n), D2xy(n, r)) && q == Place(sx, sy, Pow2(n), D2xy(n, t))
    requires r < Pow4(n) && t < Pow4(n) && Start(rx, ry, n) + r + 1 == Start(sx, sy, n) + t
    requires r + 1 < Pow4(n) ==> Manhattan(D2xy(n, r), D2xy(n, r + 1)) == 1
    ensures Manhattan(p, q) == 1
  {
    NextCopy(n, rx, ry, r, sx, sy, t);
    if r + 1 < Pow4(n) {
      PlaceIsometry(rx, ry, Pow2(n), D2xy(n, r), D2xy(n, t));
    } else {
      Ends(n);
      Crossing(Pow2(n), rx, ry, sx, sy);
    }
  }

  /** Consecutive indices land on neighbouring points. */
  lemma {:induction false} Adjacent(n: nat, d: nat)
    requires d + 1 < Pow4(n)
    ensures Manhattan(D2xy(n, d), D2xy(n, d + 1)) == 1
  {
    if n > 0 {
      var rx, ry, r := Split(n - 1, d);
      var sx, sy, t := Split(n - 1, d + 1);
      if r + 1 < Pow4(n - 1) {
        Adjacent(n - 1, r);
      }
      AdjacentPlaces(n - 1, rx, ry, r, sx, sy, t, D2xy(n, d), D2xy(n, d + 1));
    }
  }

  lemma AdjacentTo(n: nat, d: nat, e: nat)
    requires e == d + 1 && e < Pow4(n)
    ensures Manhattan(D2xy(n, d), D2xy(n, e)) == 1
  {
    Adjacent(n, d);
  }

  // ----- inverse -----

  function Unplace(rx: bool, ry: bool, s: int, p: Point): Point {
    var u, v := p.x - (if rx then s else 0), p.y - (if ry then s else 0);
    Turn(rx, ry, s, Point(u, v))
  }

  /** `xy2d` with each reflection confined to the sub-square. */
  function Xy2dLocal(levels: nat, x: nat, y: nat): nat
    requires x < Pow2(levels) && y < Pow2(levels)
  {
    if levels == 0 then 0
    else
      var s := Pow2(levels - 1);
      var rx, ry := x >= s, y >= s;
      var p := Unplace(rx, ry, s, Point(x, y));
      Start(rx, ry, levels - 1) + Xy2dLocal(levels - 1, p.x, p.y)
  }

  lemma UnplacePlace(rx: bool, ry: bool, s: int, p: Point)
    ensures Unplace(rx, ry, s, Place(rx, ry, s, p)) == p
    ensures Place(rx, ry, s, Unplace(rx, ry, s, p)) == p
  {
  }

  lemma {:induction false} LocalInverse(n: nat, d: nat)
    requires d < Pow4(n)
    ensures var p := D2xy(n, d);
            && 0 <= p.x < Pow2(n) && 0 <= p.y < Pow2(n)
            && Xy2dLocal(n, p.x, p.y) == d
  {
    D2xyInside(n, d);
    if n > 0 {
      var rx, ry, r := Split(n - 1, d);
      LocalInverse(n - 1, r);
      PlaceInside(rx, ry, Pow2(n - 1), D2xy(n - 1, r));
      UnplacePlace(rx, ry, Pow2(n - 1), D2xy(n - 1, r));
    }
  }

  lemma UnplaceInside(rx: bool, ry: bool, s: int, p: Point)
    requires 0 <= p.x < 2 * s && 0 <= p.y < 2 * s && (rx <==> p.x >= s) && (ry <==> p.y >= s)
    ensures var u := Unplace(rx, ry, s, p);
            0 <= u.x < s && 0 <= u.y < s
  {
  }

  lemma {:induction false} LocalRightInverse(n: nat, x: nat, y: nat)
    requires x < Pow2(n) && y < Pow2(n)
    ensures Xy2dLocal(n, x, y) < Pow4(n)
    ensures D2xy(n, Xy2dLocal(n, x, y)) == Point(x, y)
  {
    if n > 0 {
      var s := Pow2(n - 1);
      var rx, ry := x >= s, y >= s;
      var p := Unplace(rx, ry, s, Point(x, y));
      UnplaceInside(rx, ry, s, Point(x, y));
      LocalRightInverse(n - 1, p.x, p.y);
      var d := Xy2dLocal(n - 1, p.x, p.y);
      assert Xy2dLocal(n, x, y) == Start(rx, ry, n - 1) + d;
      D2xyStep(n - 1, rx, ry, d);
      UnplacePlace(rx, ry, s, Point(x, y));
    }
  }

  /** Complementing the full width, the higher bits are garbage that no later level reads. */
  lemma {:induction false} FullReflectionIsLocal(width: nat, levels: nat, x: nat, a: nat, u: nat,
                                                 y: nat, b: nat, v: nat)
    requires levels <= width && x < Pow2(width) && y < Pow2(width)
    requires u < Pow2(levels) && x == a * Pow2(levels) + u
    requires v < Pow2(levels) && y == b * Pow2(levels) + v
    ensures Xy2d(width, levels, x, y) == Xy2dLocal(levels, u, v)
    decreases levels
  {
    if levels > 0 {
      var level := levels - 1;
      var s, full := Pow2(level), Pow2(width) - 1;
      var c, w := HighPart(x, a, level, u);
      var d, z := HighPart(y, b, level, v);
      if v >= s {
        FullReflectionIsLocal(width, level, x, c, w, y, d, z);
      } else if u >= s {
        var e := Complement(width, level, x, c, w);
        var f := Complement(width, level, y, d, z);
        FullReflectionIsLocal(width, level, full - y, f, s - 1 - z, full - x, e, s - 1 - w);
      } else {
        FullReflectionIsLocal(width, level, y, d, z, x, c, w);
      }
    }
  }

  /** Lowering the split point by one bit moves that bit to the high part. */
  lemma HighPart(x: nat, a: nat, level: nat, u: nat) returns (c: nat, w: nat)
    requires u < Pow2(level + 1) && x == a * Pow2(level + 1) + u
    ensures x == c * Pow2(level) + w
    ensures w == (if u >= Pow2(level) then u - Pow2(level) else u) && w < Pow2(level)
    ensures Bit(x, level) <==> u >= Pow2(level)
  {
    var s := Pow2(level);
    var bit := if u >= s then 1 else 0;
    c, w := 2 * a + bit, u - bit * s;
    LowerSplit(a, s, bit, w);
    LowBits(c, level, w, level);
    assert Bit(c, 0) == (c % 2 == 1);
  }

  lemma LowerSplit(a: nat, s: nat, bit: nat, w: nat)
    ensures a * (2 * s) + (bit * s + w) == (2 * a + bit) * s + w
  {
    assert (2 * a + bit) * s == (2 * a) * s + bit * s;
    assert a * (2 * s) == (2 * a) * s;
  }

  lemma Complement(width: nat, level: nat, x: nat, c: nat, w: nat) returns (e: nat)
    requires level <= width && w < Pow2(level) && x == c * Pow2(level) + w && x < Pow2(width)
    ensures Pow2(width) - 1 - x == e * Pow2(level) + (Pow2(level) - 1 - w)
  {
    Pow2Adds(width - level, level);
    e := ComplementHigh(Pow2(width - level), Pow2(level), c, w);
  }

  lemma ComplementHigh(h: nat, s: nat, c: nat, w: nat) returns (e: nat)
    requires w < s && c * s + w < h * s
    ensures h * s - 1 - (c * s + w) == e * s + (s - 1 - w)
  {
    assert c >= h ==> c * s >= h * s;
    e := h - 1 - c;
    assert e * s == h * s - s - c * s;
  }

  /** `xy2d` undoes `d2xy` on every index, and the other way round on every point. */
  lemma Inverse(n: nat, d: nat)
    requires d < Pow4(n)
    ensures var p := D2xy(n, d);
            0 <= p.x < Pow2(n) && 0 <= p.y < Pow2(n) && Xy2d(n, n, p.x, p.y) == d
  {
    LocalInverse(n, d);
    var p := D2xy(n, d);
    FullReflectionIsLocal(n, n, p.x, 0, p.x, p.y, 0, p.y);
  }

  lemma RightInverse(n: nat, x: nat, y: nat)
    requires x < Pow2(n) && y < Pow2(n)
    ensures Xy2d(n, n, x, y) < Pow4(n) && D2xy(n, Xy2d(n, n, x, y)) == Point(x, y)
  {
    LocalRightInverse(n, x, y);
    FullReflectionIsLocal(n, n, x, 0, x, y, 0, y);
  }

  lemma Injective(n: nat, d: nat, e: nat)
    requires d < Pow4(n) && e < Pow4(n) && D2xy(n, d) == D2xy(n, e)
    ensures d == e
  {
    Inverse(n, d);
    Inverse(n, e);
  }

  // ----- locality -----

  function Coarse(p: Point, j: nat): Point
    requires p.x >= 0 && p.y >= 0
  {
    Point(Shr(p.x, j), Shr(p.y, j))
  }

  lemma AxisCoarse(m: nat, j: nat, x: nat)
    requires x < Pow2(m + j)
    ensures Shr(x, j) < Pow2(m)
    ensures Shr(x + Pow2(m + j), j) == Shr(x, j) + Pow2(m)
    ensures Shr(Pow2(m + j) - 1 - x, j) == Pow2(m) - 1 - Shr(x, j)
  {
    ShrSum(1, m, j, x);
    ShrComplement(m, j, x);
  }

  /** Placing a point in a quadrant commutes with looking at it coarsely. */
  lemma PlaceCoarse(rx: bool, ry: bool, m: nat, j: nat, p: Point)
    requires 0 <= p.x < Pow2(m + j) && 0 <= p.y < Pow2(m + j)
    ensures var r := Place(rx, ry, Pow2(m + j), p);
            r.x >= 0 && r.y >= 0 && Coarse(r, j) == Place(rx, ry, Pow2(m), Coarse(p, j))
  {
    AxisCoarse(m, j, p.x);
    AxisCoarse(m, j, p.y);
    if rx && !ry {
      AxisCoarse(m, j, Pow2(m + j) - 1 - p.y);
    }
  }

  lemma IndexCoarse(rx: bool, ry: bool, n: nat, j: nat, r: nat)
    requires r < Pow4(n + j)
    ensures Shr(r, 2 * j) < Pow4(n)
    ensures Shr(Start(rx, ry, n + j) + r, 2 * j) == Start(rx, ry, n) + Shr(r, 2 * j) < Pow4(n + 1)
  {
    Pow4IsPow2(n + j);
    Pow4IsPow2(n);
    assert 2 * (n + j) == 2 * n + 2 * j;
    ShrSum(Quadrant(rx, ry), 2 * n, 2 * j, r);
  }

  /** Zooming out: dropping `2j` bits of the index and `j` bits of both axes gives the curve
      with `j` levels fewer. */
  lemma {:induction false} ZoomOut(n: nat, j: nat, d: nat)
    requires d < Pow4(n + j)
    ensures Shr(d, 2 * j) < Pow4(n)
    ensures var p := D2xy(n + j, d);
            p.x >= 0 && p.y >= 0 && Coarse(p, j) == D2xy(n, Shr(d, 2 * j))
    decreases n
  {
    if n == 0 {
      ZoomAway(j, d);
    } else {
      var rx, ry, r := Split(n - 1 + j, d);
      ZoomOut(n - 1, j, r);
      D2xyInside(n - 1 + j, r);
      ZoomCopy(n - 1, j, rx, ry, r, d, D2xy(n - 1 + j, r));
    }
  }

  lemma ZoomCopy(n: nat, j: nat, rx: bool, ry: bool, r: nat, d: nat, p: Point)
    requires r < Pow4(n + j) && d == Start(rx, ry, n + j) + r
    requires 0 <= p.x < Pow2(n + j) && 0 <= p.y < Pow2(n + j) && Coarse(p, j) == D2xy(n, Shr(r, 2 * j))
    ensures Shr(d, 2 * j) < Pow4(n + 1)
    ensures var o := Place(rx, ry, Pow2(n + j), p);
            o.x >= 0 && o.y >= 0 && Coarse(o, j) == D2xy(n + 1, Shr(d, 2 * j))
  {
    IndexCoarse(rx, ry, n, j, r);
    PlaceCoarse(rx, ry, n, j, p);
    D2xyStep(n, rx, ry, Shr(r, 2 * j));
  }

  lemma ZoomAway(j: nat, d: nat)
    requires d < Pow4(j)
    ensures Shr(d, 2 * j) == 0
    ensures var p := D2xy(j, d);
            p.x >= 0 && p.y >= 0 && Coarse(p, j) == Point(0, 0)
  {
    var p := D2xy(j, d);
    D2xyInside(j, d);
    Pow4IsPow2(j);
    ShrSum(0, 0, 2 * j, d);
    ShrSum(0, 0, j, p.x);
    ShrSum(0, 0, j, p.y);
  }

  /** The top `2n` bits of an index and the top `n` bits of both axes determine each other: the
      indices that share a prefix of even length are an aligned square. */
  lemma Locality(n: nat, j: nat, d: nat, e: nat)
    requires d < Pow4(n + j) && e < Pow4(n + j)
    ensures var p, q := D2xy(n + j, d), D2xy(n + j, e);
            && p.x >= 0 && p.y >= 0 && q.x >= 0 && q.y >= 0
            && (Shr(d, 2 * j) == Shr(e, 2 * j) <==> Coarse(p, j) == Coarse(q, j))
  {
    ZoomOut(n, j, d);
    ZoomOut(n, j, e);
    CellOf(n, Shr(d, 2 * j), Shr(e, 2 * j));
  }

  /** The indices that share a prefix of odd length are two such squares, ... */
  lemma OddLocality(n: nat, j: nat, c: nat, d: nat)
    requires 2 * c + 1 < Pow4(n) && d < Pow4(n + j)
    ensures var r := D2xy(n + j, d);
            && r.x >= 0 && r.y >= 0
            && (Shr(d, 2 * j + 1) == c
                <==> Coarse(r, j) == D2xy(n, 2 * c) || Coarse(r, j) == D2xy(n, 2 * c + 1))
  {
    ZoomOut(n, j, d);
    ShrMore(d, 2 * j);
    CellOf(n, Shr(d, 2 * j), 2 * c);
    CellOf(n, Shr(d, 2 * j), 2 * c + 1);
  }

  /** ... which lie side by side in the square of the prefix one bit shorter: an aligned
      two-to-one rectangle. */
  lemma TwinCells(n: nat, c: nat)
    requires 2 * c + 1 < Pow4(n + 1)
    ensures var p, q := D2xy(n + 1, 2 * c), D2xy(n + 1, 2 * c + 1);
            && Manhattan(p, q) == 1
            && p.x >= 0 && p.y >= 0 && q.x >= 0 && q.y >= 0 && Coarse(p, 1) == Coarse(q, 1)
  {
    Adjacent(n + 1, 2 * c);
    assert Shr(2 * c, 2) == Shr(c, 1) == Shr(2 * c + 1, 2);
    Locality(n, 1, 2 * c, 2 * c + 1);
  }

  lemma CellOf(n: nat, d: nat, e: nat)
    requires d < Pow4(n) && e < Pow4(n)
    ensures D2xy(n, d) == D2xy(n, e) <==> d == e
  {
    if D2xy(n, d) == D2xy(n, e) {
      Injective(n, d, e);
    }
  }
}
