/** The order-64 mapping on `u32` arrays (`hilbert.rs`): bit-sets, complements and swaps,
    proved to compute the arithmetic of HilbertCurve.dfy. */
module Hilbert {
  import opened Words
  import opened Prefixes
  import opened HilbertCurve

  const LEVELS := 64

  /** A 64-bit axis, most significant word first. */
  type Axis = a: seq<Word> | |a| == 2 witness [0, 0]

  datatype HilbertPoint = HilbertPoint(x: Axis, y: Axis)

  // ----- bit access -----

  predicate IndexBit(ip: Address, bit: nat)
    requires bit < 128
  {
    Bit(ip[3 - bit / 32], bit % 32)
  }

  function SetIndexBit(ip: Address, bit: nat): Address
    requires bit < 128
  {
    ip[3 - bit / 32 := OrWord(ip[3 - bit / 32], OneHot(bit % 32))]
  }

  predicate AxisBit(axis: Axis, bit: nat)
    requires bit < 64
  {
    Bit(axis[1 - bit / 32], bit % 32)
  }

  function SetAxisBit(axis: Axis, bit: nat): Axis
    requires bit < 64
  {
    axis[1 - bit / 32 := OrWord(axis[1 - bit / 32], OneHot(bit % 32))]
  }

  function LowBitMask(n: nat): Word {
    if n >= 32 then ALL_ONES else OneHot(n) - 1
  }

  function ComplementLowAxisBits(axis: Axis, bits: nat): Axis {
    [XorWord(axis[0], LowBitMask(if bits >= 32 then bits - 32 else 0)), XorWord(axis[1], LowBitMask(bits))]
  }

  function ComplementAxis(axis: Axis): Axis {
    [XorWord(axis[0], ALL_ONES), XorWord(axis[1], ALL_ONES)]
  }

  // ----- the numbers the arrays stand for -----

  /** Two `n`-bit numbers side by side. */
  function Join(hi: nat, lo: nat, n: nat): nat {
    hi * Pow2(n) + lo
  }

  lemma JoinBound(hi: nat, lo: nat, n: nat)
    requires hi < Pow2(n) && lo < Pow2(n)
    ensures Join(hi, lo, n) < Pow2(n + n)
  {
    Pow2Adds(n, n);
    SquareBound(hi, lo, Pow2(n));
  }

  lemma SquareBound(hi: nat, lo: nat, m: nat)
    requires hi < m && lo < m
    ensures hi * m + lo < m * m
  {
    var gap := m - 1 - hi;
    assert m * m == (hi + 1 + gap) * m == hi * m + m + gap * m;
  }

  function AxisValue(a: Axis): nat {
    Join(a[0], a[1], 32)
  }

  function IndexValue(ip: Address): nat {
    Join(AxisValue([ip[0], ip[1]]), AxisValue([ip[2], ip[3]]), 64)
  }

  lemma AxisBound(a: Axis)
    ensures AxisValue(a) < Pow2(64)
  {
    Pow2Is32();
    JoinBound(a[0], a[1], 32);
  }

  lemma IndexBound(ip: Address)
    ensures IndexValue(ip) < Pow2(128)
  {
    AxisBound([ip[0], ip[1]]);
    AxisBound([ip[2], ip[3]]);
    JoinBound(AxisValue([ip[0], ip[1]]), AxisValue([ip[2], ip[3]]), 64);
  }

  function PointValue(x: Axis, y: Axis): Point {
    Point(AxisValue(x), AxisValue(y))
  }

  /** What `xy2d` makes of the levels below the given one. */
  function IndexBelow(level: nat, x: Axis, y: Axis): nat
    requires level <= LEVELS
  {
    AxisBound(x);
    AxisBound(y);
    Xy2d(LEVELS, level, AxisValue(x), AxisValue(y))
  }

  lemma AxisBits(a: Axis, j: nat)
    ensures Bit(AxisValue(a), j) == (j < 64 && AxisBit(a, j))
  {
    Pow2Is32();
    LowBits(a[0], 32, a[1], j);
    if j >= 64 {
      AxisBound(a);
      HighBitsClear(AxisValue(a), 64, j);
    }
  }

  lemma HalfBits(ip: Address, j: nat)
    requires j < 128
    ensures IndexBit(ip, j) == if j < 64 then AxisBit([ip[2], ip[3]], j) else AxisBit([ip[0], ip[1]], j - 64)
  {
  }

  lemma IndexBits(ip: Address, j: nat)
    ensures Bit(IndexValue(ip), j) == (j < 128 && IndexBit(ip, j))
  {
    var hi, lo: Axis := [ip[0], ip[1]], [ip[2], ip[3]];
    AxisBound(lo);
    LowBits(AxisValue(hi), 64, AxisValue(lo), j);
    if j < 128 {
      HalfBits(ip, j);
      if j < 64 {
        AxisBits(lo, j);
      } else {
        AxisBits(hi, j - 64);
      }
    } else {
      IndexBound(ip);
      HighBitsClear(IndexValue(ip), 128, j);
    }
  }

  // ----- what the helpers do to those numbers -----

  lemma AxisFromBits(a: Axis, v: nat)
    requires v < Pow2(64) && forall j: nat | j < 64 :: Bit(v, j) == AxisBit(a, j)
    ensures AxisValue(a) == v
  {
    AxisBound(a);
    forall j: nat | j < 64 ensures Bit(AxisValue(a), j) == Bit(v, j) {
      AxisBits(a, j);
    }
    SameBits(AxisValue(a), v, 64);
  }

  lemma IndexFromBits(ip: Address, v: nat)
    requires v < Pow2(128) && forall j: nat | j < 128 :: Bit(v, j) == IndexBit(ip, j)
    ensures IndexValue(ip) == v
  {
    IndexBound(ip);
    forall j: nat | j < 128 ensures Bit(IndexValue(ip), j) == Bit(v, j) {
      IndexBits(ip, j);
    }
    SameBits(IndexValue(ip), v, 128);
  }

  lemma AxisSetBit(a: Axis, bit: nat, j: nat)
    requires bit < 64 && j < 64
    ensures AxisBit(SetAxisBit(a, bit), j) == (j == bit || AxisBit(a, j))
  {
    OrBit(a[1 - bit / 32], OneHot(bit % 32), j % 32);
    OneHotBit(bit % 32, j % 32);
  }

  lemma IndexSetBit(ip: Address, bit: nat, j: nat)
    requires bit < 128 && j < 128
    ensures IndexBit(SetIndexBit(ip, bit), j) == (j == bit || IndexBit(ip, j))
  {
    OrBit(ip[3 - bit / 32], OneHot(bit % 32), j % 32);
    OneHotBit(bit % 32, j % 32);
  }

  /** A clear bit, set, adds its weight and leaves room for no other change. */
  lemma SetBitAdds(v: nat, bit: nat, j: nat)
    requires !Bit(v, bit)
    ensures Bit(v + Pow2(bit), j) == (j == bit || Bit(v, j))
  {
    OrAdds(v, bit);
    OrBit(v, Pow2(bit), j);
    OneHotBit(bit, j);
  }

  lemma SetBitBound(v: nat, bit: nat, n: nat)
    requires v < Pow2(n) && bit < n && !Bit(v, bit)
    ensures v + Pow2(bit) < Pow2(n)
  {
    OrAdds(v, bit);
    Pow2Grows(bit + 1, n);
    BitwiseBound(v, Pow2(bit), n);
  }

  lemma AxisSet(a: Axis, bit: nat)
    requires bit < 64 && AxisValue(a) < Pow2(bit)
    ensures AxisValue(SetAxisBit(a, bit)) == AxisValue(a) + Pow2(bit)
  {
    AxisBound(a);
    HighBitsClear(AxisValue(a), bit, bit);
    SetBitBound(AxisValue(a), bit, 64);
    forall j: nat | j < 64 ensures Bit(AxisValue(a) + Pow2(bit), j) == AxisBit(SetAxisBit(a, bit), j) {
      AxisSetBits(a, bit, j);
    }
    AxisFromBits(SetAxisBit(a, bit), AxisValue(a) + Pow2(bit));
  }

  lemma AxisSetBits(a: Axis, bit: nat, j: nat)
    requires bit < 64 && j < 64 && !Bit(AxisValue(a), bit)
    ensures Bit(AxisValue(a) + Pow2(bit), j) == AxisBit(SetAxisBit(a, bit), j)
  {
    SetBitAdds(AxisValue(a), bit, j);
    AxisSetBit(a, bit, j);
    AxisBits(a, j);
  }

  lemma IndexSet(ip: Address, bit: nat)
    requires bit < 128 && !Bit(IndexValue(ip), bit)
    ensures IndexValue(SetIndexBit(ip, bit)) == IndexValue(ip) + Pow2(bit)
  {
    var v := IndexValue(ip);
    IndexBits(ip, bit);
    IndexBound(ip);
    SetBitBound(v, bit, 128);
    forall j: nat | j < 128 ensures Bit(v + Pow2(bit), j) == IndexBit(SetIndexBit(ip, bit), j) {
      SetBitAdds(v, bit, j);
      IndexSetBit(ip, bit, j);
      IndexBits(ip, j);
    }
    IndexFromBits(SetIndexBit(ip, bit), v + Pow2(bit));
  }

  lemma LowBitMaskBit(n: nat, j: nat)
    requires j < 32
    ensures Bit(LowBitMask(n), j) == (j < n)
  {
    Pow2Is32();
    LowMaskBit(if n >= 32 then 32 else n, j);
  }

  lemma ComplementLowBit(a: Axis, bits: nat, j: nat)
    requires j < 64
    ensures AxisBit(ComplementLowAxisBits(a, bits), j) == (AxisBit(a, j) != (j < bits))
  {
    if j < 32 {
      XorBit(a[1], LowBitMask(bits), j);
      LowBitMaskBit(bits, j);
    } else {
      var upper := if bits >= 32 then bits - 32 else 0;
      XorBit(a[0], LowBitMask(upper), j - 32);
      LowBitMaskBit(upper, j - 32);
    }
  }

  /** Complementing `bits` bits of a number that has no others subtracts it. */
  lemma ComplementSubtracts(v: nat, bits: nat, j: nat)
    requires v < Pow2(bits)
    ensures Bit(Pow2(bits) - 1 - v, j) == (Bit(v, j) != (j < bits))
  {
    XorOnes(v, bits);
    XorBit(Pow2(bits) - 1, v, j);
    LowMaskBit(bits, j);
  }

  lemma AxisComplementLow(a: Axis, bits: nat)
    requires bits <= 64 && AxisValue(a) < Pow2(bits)
    ensures AxisValue(ComplementLowAxisBits(a, bits)) == Pow2(bits) - 1 - AxisValue(a)
  {
    var b, v := ComplementLowAxisBits(a, bits), Pow2(bits) - 1 - AxisValue(a);
    Pow2Grows(bits, 64);
    forall j: nat | j < 64 ensures Bit(v, j) == AxisBit(b, j) {
      AxisComplementBits(a, bits, j);
    }
    AxisFromBits(b, v);
  }

  lemma AxisComplementBits(a: Axis, bits: nat, j: nat)
    requires j < 64 && AxisValue(a) < Pow2(bits)
    ensures Bit(Pow2(bits) - 1 - AxisValue(a), j) == AxisBit(ComplementLowAxisBits(a, bits), j)
  {
    ComplementSubtracts(AxisValue(a), bits, j);
    ComplementLowBit(a, bits, j);
    AxisBits(a, j);
  }

  lemma AxisComplement(a: Axis)
    ensures AxisValue(ComplementAxis(a)) == Pow2(64) - 1 - AxisValue(a)
  {
    AxisBound(a);
    AxisComplementLow(a, 64);
  }

  // ----- the two mappings -----

  /** Builds the axes from the finest level up; each stays below `2^level`. */
  method IpToPoint(ip: Address) returns (p: HilbertPoint)
    ensures PointValue(p.x, p.y) == D2xy(LEVELS, IndexValue(ip))
  {
    var x: Axis := [0, 0];
    var y: Axis := [0, 0];
    var level := 0;
    while level < LEVELS
      invariant 0 <= level <= LEVELS
      invariant PointValue(x, y) == D2xy(level, IndexValue(ip))
    {
      var rx := IndexBit(ip, 2 * level + 1);
      var ry := IndexBit(ip, 2 * level) != rx;
      IndexBits(ip, 2 * level);
      IndexBits(ip, 2 * level + 1);
      D2xyInside(level, IndexValue(ip));
      x, y := TurnLow(x, y, level, rx, ry);
      x, y := SetHalves(x, y, level, rx, ry);
      level := level + 1;
    }
    p := HilbertPoint(x, y);
  }

  /** The reflection on the way up complements the low `level` bits only. */
  method TurnLow(x: Axis, y: Axis, level: nat, rx: bool, ry: bool) returns (u: Axis, v: Axis)
    requires level <= 64 && AxisValue(x) < Pow2(level) && AxisValue(y) < Pow2(level)
    ensures PointValue(u, v) == Turn(rx, ry, Pow2(level), PointValue(x, y))
    ensures AxisValue(u) < Pow2(level) && AxisValue(v) < Pow2(level)
  {
    u, v := x, y;
    if !ry {
      if rx {
        AxisComplementLow(x, level);
        AxisComplementLow(y, level);
        u, v := ComplementLowAxisBits(x, level), ComplementLowAxisBits(y, level);
      }
      u, v := v, u;
    }
  }

  method SetHalves(x: Axis, y: Axis, level: nat, rx: bool, ry: bool) returns (u: Axis, v: Axis)
    requires level < 64 && AxisValue(x) < Pow2(level) && AxisValue(y) < Pow2(level)
    ensures AxisValue(u) == AxisValue(x) + (if rx then Pow2(level) else 0)
    ensures AxisValue(v) == AxisValue(y) + (if ry then Pow2(level) else 0)
  {
    u, v := x, y;
    if rx {
      AxisSet(x, level);
      u := SetAxisBit(x, level);
    }
    if ry {
      AxisSet(y, level);
      v := SetAxisBit(y, level);
    }
  }

  /** `(3 * rx) ^ ry`, whose two bits are the index bits of the level. */
  lemma QuadrantBits(rx: bool, ry: bool)
    ensures var q := Xor(3 * (if rx then 1 else 0), if ry then 1 else 0);
            q == Quadrant(rx, ry) && (And(q, 1) == 1 <==> q % 2 == 1) && (And(q, 2) == 2 <==> q >= 2)
  {
  }

  lemma MultipleBits(q: nat, n: nat, j: nat)
    requires j < n
    ensures !Bit(q * Pow2(n), j)
  {
    LowBits(q, n, 0, j);
    ZeroBit(j);
  }

  lemma Distribute(q: nat, quadrant: nat, p: nat)
    ensures (4 * q + quadrant) * p == q * (4 * p) + quadrant * p
  {
  }

  method ZeroIndex() returns (ip: Address)
    ensures IndexValue(ip) == 0
  {
    ip := [0, 0, 0, 0];
    assert AxisValue([ip[0], ip[1]]) == AxisValue([ip[2], ip[3]]) == 0;
  }

  /** Reads the axes from the coarsest level down. */
  method PointToIp(point: HilbertPoint) returns (addr: Address)
    ensures IndexValue(addr) == IndexBelow(LEVELS, point.x, point.y)
  {
    var x, y := point.x, point.y;
    var ip := ZeroIndex();
    ghost var q := 0;
    for level := LEVELS downto 0
      invariant IndexValue(ip) == q * Pow4(level)
      invariant IndexValue(ip) + IndexBelow(level, x, y) == IndexBelow(LEVELS, point.x, point.y)
    {
      var rx, ry := AxisBit(x, level), AxisBit(y, level);
      ip := SetQuadrant(ip, level, rx, ry, q);
      q := 4 * q + Quadrant(rx, ry);
      x, y := TurnFull(x, y, level, rx, ry);
    }
    addr := ip;
  }

  method SetQuadrant(ip: Address, level: nat, rx: bool, ry: bool, ghost q: nat) returns (r: Address)
    requires level < LEVELS && IndexValue(ip) == q * Pow4(level + 1)
    ensures IndexValue(r) == IndexValue(ip) + Start(rx, ry, level)
    ensures IndexValue(r) == (4 * q + Quadrant(rx, ry)) * Pow4(level)
  {
    var quadrant := Xor(3 * (if rx then 1 else 0), if ry then 1 else 0);
    QuadrantBits(rx, ry);
    Pow4IsPow2(level);
    Pow4IsPow2(level + 1);
    MultipleBits(q, 2 * level + 2, 2 * level);
    MultipleBits(q, 2 * level + 2, 2 * level + 1);
    Distribute(q, Quadrant(rx, ry), Pow4(level));
    r := ip;
    if And(quadrant, 1) == 1 {
      SetIndexBitAdds(r, 2 * level, 2 * level + 1);
      r := SetIndexBit(r, 2 * level);
    }
    if And(quadrant, 2) == 2 {
      IndexSet(r, 2 * level + 1);
      r := SetIndexBit(r, 2 * level + 1);
    }
  }

  lemma SetIndexBitAdds(ip: Address, bit: nat, other: nat)
    requires bit < 128 && !Bit(IndexValue(ip), bit) && other != bit
    ensures IndexValue(SetIndexBit(ip, bit)) == IndexValue(ip) + Pow2(bit)
    ensures Bit(IndexValue(SetIndexBit(ip, bit)), other) == Bit(IndexValue(ip), other)
  {
    IndexSet(ip, bit);
    SetBitAdds(IndexValue(ip), bit, other);
  }

  /** The reflection on the way down complements all 64 bits. */
  method TurnFull(x: Axis, y: Axis, ghost level: nat, rx: bool, ry: bool) returns (u: Axis, v: Axis)
    requires level < LEVELS && rx == AxisBit(x, level) && ry == AxisBit(y, level)
    ensures IndexBelow(level + 1, x, y) == Start(rx, ry, level) + IndexBelow(level, u, v)
  {
    u, v := x, y;
    if !ry {
      if rx {
        AxisComplement(x);
        AxisComplement(y);
        u, v := ComplementAxis(x), ComplementAxis(y);
      }
      u, v := v, u;
    }
    AxisBits(x, level);
    AxisBits(y, level);
    AxisBound(x);
    AxisBound(y);
    Xy2dStep(LEVELS, level, AxisValue(x), AxisValue(y), AxisValue(u), AxisValue(v));
  }

  // ----- the mappings on words -----

  /** The point of an address. */
  function PointOf(ip: Address): Point {
    D2xy(LEVELS, IndexValue(ip))
  }

  lemma IndexInRange(ip: Address)
    ensures IndexValue(ip) < Pow4(LEVELS)
  {
    IndexBound(ip);
    Pow4IsPow2(LEVELS);
  }

  /** Position `pos` of an address, counted from the top, is index bit `127 - pos`. */
  lemma BitAtIndex(a: Address, pos: nat)
    requires pos < 128
    ensures BitAt(a, pos) == Bit(IndexValue(a), 127 - pos)
  {
    IndexBits(a, 127 - pos);
    assert 3 - (127 - pos) / 32 == pos / 32 && (127 - pos) % 32 == 31 - pos % 32;
  }

  lemma IndexInjective(a: Address, b: Address)
    requires IndexValue(a) == IndexValue(b)
    ensures a == b
  {
    forall pos: nat | pos < 128 ensures AddressKey(a)[pos] == AddressKey(b)[pos] {
      BitAtIndex(a, pos);
      BitAtIndex(b, pos);
    }
    assert AddressKey(a) == AddressKey(b);
    AddressKeyInjective(a, b);
  }

  lemma AxisInjective(a: Axis, b: Axis)
    requires AxisValue(a) == AxisValue(b)
    ensures a == b
  {
    forall w | 0 <= w < 2 ensures a[w] == b[w] {
      Pow2Is32();
      forall n: nat | n < 32 ensures Bit(a[w], n) == Bit(b[w], n) {
        AxisBits(a, 32 * (1 - w) + n);
        AxisBits(b, 32 * (1 - w) + n);
      }
      SameBits(a[w], b[w], 32);
    }
  }

  method AddressRoundTrip(ip: Address) returns (p: HilbertPoint, back: Address)
    ensures PointValue(p.x, p.y) == PointOf(ip) && back == ip
  {
    p := IpToPoint(ip);
    back := PointToIp(p);
    IndexInRange(ip);
    Inverse(LEVELS, IndexValue(ip));
    IndexInjective(back, ip);
  }

  lemma PointInjective(a: Address, b: Address)
    requires PointOf(a) == PointOf(b)
    ensures a == b
  {
    IndexInRange(a);
    IndexInRange(b);
    Injective(LEVELS, IndexValue(a), IndexValue(b));
    IndexInjective(a, b);
  }

  lemma IndexBelowIsPoint(ip: Address, x: Axis, y: Axis)
    requires IndexValue(ip) == IndexBelow(LEVELS, x, y)
    ensures PointOf(ip) == PointValue(x, y)
  {
    AxisBound(x);
    AxisBound(y);
    RightInverse(LEVELS, AxisValue(x), AxisValue(y));
  }

  method PointRoundTrip(p: HilbertPoint) returns (ip: Address, back: HilbertPoint)
    ensures PointOf(ip) == PointValue(p.x, p.y) && back == p
  {
    ip := PointToIp(p);
    back := IpToPoint(ip);
    IndexBelowIsPoint(ip, p.x, p.y);
    AxisInjective(back.x, p.x);
    AxisInjective(back.y, p.y);
  }

  /** Consecutive addresses are neighbours in the plane. */
  lemma NextAddressIsAdjacent(a: Address, b: Address)
    requires IndexValue(b) == IndexValue(a) + 1
    ensures Manhattan(PointOf(a), PointOf(b)) == 1
  {
    IndexInRange(b);
    AdjacentTo(LEVELS, IndexValue(a), IndexValue(b));
  }

  // ----- prefixes as areas -----

  lemma TopBit(a: Address, len: nat, low: nat, k: nat)
    requires k < len && len + low == 128
    ensures Bit(Shr(IndexValue(a), low), k) == BitAt(a, len - 1 - k)
  {
    ShrBit(IndexValue(a), low, k);
    BitAtIndex(a, len - 1 - k);
  }

  lemma TopBound(a: Address, len: nat, low: nat)
    requires len + low == 128
    ensures Shr(IndexValue(a), low) < Pow2(len)
  {
    IndexBound(a);
    ShrSum(0, len, low, IndexValue(a));
  }

  lemma SamePrefixSameTop(a: Address, b: Address, len: nat, low: nat)
    requires len + low == 128 && AddressKey(a)[..len] == AddressKey(b)[..len]
    ensures Shr(IndexValue(a), low) == Shr(IndexValue(b), low)
  {
    var v, w := Shr(IndexValue(a), low), Shr(IndexValue(b), low);
    forall n: nat | n < len ensures Bit(v, n) == Bit(w, n) {
      TopBit(a, len, low, n);
      TopBit(b, len, low, n);
      assert AddressKey(a)[..len][len - 1 - n] == AddressKey(b)[..len][len - 1 - n];
    }
    TopBound(a, len, low);
    TopBound(b, len, low);
    SameBits(v, w, len);
  }

  /** The first `len` bits of an address are its index without its `low` low bits. */
  lemma SharedPrefix(a: Address, b: Address, len: nat, low: nat)
    requires len + low == 128
    ensures AddressKey(a)[..len] == AddressKey(b)[..len]
            <==> Shr(IndexValue(a), low) == Shr(IndexValue(b), low)
  {
    if Shr(IndexValue(a), low) == Shr(IndexValue(b), low) {
      forall i: nat | i < len ensures AddressKey(a)[i] == AddressKey(b)[i] {
        TopBit(a, len, low, len - 1 - i);
        TopBit(b, len, low, len - 1 - i);
      }
    } else if AddressKey(a)[..len] == AddressKey(b)[..len] {
      SamePrefixSameTop(a, b, len, low);
    }
  }

  /** A prefix of even length is exactly an aligned square. */
  lemma EvenPrefixIsSquare(a: Address, b: Address, half: nat)
    requires half <= LEVELS
    ensures var p, q := PointOf(a), PointOf(b);
            && p.x >= 0 && p.y >= 0 && q.x >= 0 && q.y >= 0
            && (AddressKey(a)[..2 * half] == AddressKey(b)[..2 * half]
                <==> Coarse(p, LEVELS - half) == Coarse(q, LEVELS - half))
  {
    IndexInRange(a);
    IndexInRange(b);
    SharedPrefix(a, b, 2 * half, 2 * (LEVELS - half));
    Locality(half, LEVELS - half, IndexValue(a), IndexValue(b));
  }

  ghost predicate OnEither(r: Point, level: nat, p: Point, q: Point) {
    r.x >= 0 && r.y >= 0 && (Coarse(r, level) == p || Coarse(r, level) == q)
  }

  /** A prefix of odd length is exactly two cells side by side within one square. */
  lemma OddPrefixIsTwoCells(a: Address, half: nat) returns (p: Point, q: Point)
    requires half < LEVELS
    ensures Manhattan(p, q) == 1
    ensures p.x >= 0 && p.y >= 0 && q.x >= 0 && q.y >= 0 && Coarse(p, 1) == Coarse(q, 1)
    ensures forall b: Address ::
              AddressKey(b)[..2 * half + 1] == AddressKey(a)[..2 * half + 1]
              <==> OnEither(PointOf(b), LEVELS - 1 - half, p, q)
  {
    var level := LEVELS - 1 - half;
    var c := Shr(IndexValue(a), 2 * level + 1);
    TopBound(a, 2 * half + 1, 2 * level + 1);
    Pow4IsPow2(half + 1);
    TwinCells(half, c);
    p, q := D2xy(half + 1, 2 * c), D2xy(half + 1, 2 * c + 1);
    forall b: Address
      ensures AddressKey(b)[..2 * half + 1] == AddressKey(a)[..2 * half + 1] <==> OnEither(PointOf(b), level, p, q)
    {
      OddPrefixMember(a, b, 2 * half + 1, half + 1, level, c);
    }
  }

  lemma OddPrefixMember(a: Address, b: Address, len: nat, n: nat, level: nat, c: nat)
    requires len == 2 * n - 1 && n + level == LEVELS && c == Shr(IndexValue(a), 2 * level + 1)
    requires 2 * c + 1 < Pow4(n)
    ensures AddressKey(b)[..len] == AddressKey(a)[..len]
            <==> OnEither(PointOf(b), level, D2xy(n, 2 * c), D2xy(n, 2 * c + 1))
  {
    SharedPrefix(b, a, len, 2 * level + 1);
    IndexInRange(b);
    OddCells(n, level, c, IndexValue(b), PointOf(b));
  }

  lemma OddCells(n: nat, level: nat, c: nat, d: nat, r: Point)
    requires 2 * c + 1 < Pow4(n) && d < Pow4(n + level) && r == D2xy(n + level, d)
    ensures Shr(d, 2 * level + 1) == c <==> OnEither(r, level, D2xy(n, 2 * c), D2xy(n, 2 * c + 1))
  {
    OddLocality(n, level, c, d);
  }
}
