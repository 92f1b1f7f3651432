/** The fragment shader's walk (`fs_main` and `GpuSlab`): pixel to point to address to route. */
module Shader {
  import opened Words
  import opened Prefixes
  import opened Trie
  import opened TrieSets
  import opened TrieStates
  import opened TrieLookup
  import opened TrieTouches
  import opened HilbertCurve
  import opened Hilbert
  import opened Slab
  import opened RadixTrees

  /** A pixel coordinate has 24 bits, so the low 40 bits of its axis are zero. */
  const CELL_BITS := 24
  const PIXEL_MASK: Word := 0x00FF_FFFF
  const MAX_VISIBLE_LEN := 48

  function PixelCell(pixel: Word): (c: Word)
    ensures c < Pow2(CELL_BITS)
    ensures pixel < Pow2(CELL_BITS) ==> c == pixel
  {
    MaskIsPow2();
    AndMaskBound(pixel, CELL_BITS);
    if pixel < Pow2(CELL_BITS) then (AndMaskKeeps(pixel, CELL_BITS); AndWord(pixel, PIXEL_MASK))
    else AndWord(pixel, PIXEL_MASK)
  }

  lemma MaskIsPow2()
    ensures PIXEL_MASK == Pow2(CELL_BITS) - 1
  {
    assert Pow2(8) == 256;
    Pow2Adds(8, 8);
    Pow2Adds(16, 8);
  }

  /** The axis the shader computes for a pixel coordinate. */
  function PixelAxis(pixel: Word): Axis {
    [ShiftLeft(PixelCell(pixel), 8), 0]
  }

  /** A pixel coordinate, followed by 40 zero bits. */
  lemma PixelAxisValue(pixel: Word)
    ensures AxisValue(PixelAxis(pixel)) == PixelCell(pixel) * 0x100_0000_0000
    ensures pixel < 0x100_0000 ==> AxisValue(PixelAxis(pixel)) == pixel * 0x100_0000_0000
  {
    var c := PixelCell(pixel);
    MaskIsPow2();
    Pow2Is32();
    assert Pow2(8) == 256;
    assert ShiftLeft(c, 8) == c * 256;
  }

  lemma PixelAxisCell(pixel: Word)
    ensures Shr(AxisValue(PixelAxis(pixel)), LEVELS - CELL_BITS) == PixelCell(pixel)
  {
    PixelAxisValue(pixel);
    Pow2Is32();
    assert Pow2(8) == 256;
    Pow2Adds(8, 32);
    ShrSum(PixelCell(pixel), 0, 40, 0);
  }

  /** What decides the colour: the matched prefix and the timestamp of its node. */
  datatype Answer = NoRoute | Route(prefix: Prefix, ts: nat)

  /** The right answer for an address on the trie `t`. */
  ghost predicate RightAnswer(t: Tree, addr: Address, answer: Answer) {
    match answer
    case NoRoute => forall x :: x in Announced(t) ==> !(x <= AddressKey(addr))
    case Route(p, ts) =>
      && LongestMatch(Announced(t), AddressKey(addr), KeyOf(p))
      && AtKey(t, KeyOf(p)).Bin? && AtKey(t, KeyOf(p)).ts == ts
  }

  /** On a trie whose updates came in timestamp order, the answer tells when something at or
      below the matched prefix was last updated. */
  lemma AnswerTellsLastTouch(t: Tree, addr: Address, answer: Answer, a: set<Key>, ops: seq<Op>)
    requires RightAnswer(t, addr, answer) && answer.Route? && Stamped(t, a, ops)
    ensures LastTouchedAt(a, ops, KeyOf(answer.prefix), answer.ts)
  {
    AtKeyIsWithin(t, KeyOf(answer.prefix));
  }

  predicate SameCell(p: Point, x: Word, y: Word)
    requires p.x >= 0 && p.y >= 0
  {
    Coarse(p, LEVELS - CELL_BITS) == Point(PixelCell(x), PixelCell(y))
  }

  ghost predicate AllVisible(a: set<Key>) {
    forall k :: k in a ==> |k| <= MAX_VISIBLE_LEN
  }

  /** The addresses a pixel speaks for: always the one at the corner of its cell, and every one
      in the cell when no announced prefix is longer than 48 bits. */
  ghost predicate PixelShows(t: Tree, x: Word, y: Word, addr: Address) {
    var p := PointOf(addr);
    && p.x >= 0 && p.y >= 0
    && (p == PointValue(PixelAxis(x), PixelAxis(y)) || (AllVisible(Announced(t)) && SameCell(p, x, y)))
  }

  /** What the pixel shows is right for every address it speaks for. */
  ghost predicate RightPixel(t: Tree, x: Word, y: Word, answer: Answer) {
    forall addr: Address | PixelShows(t, x, y, addr) :: RightAnswer(t, addr, answer)
  }

  /** A prefix of at most `len` bits covers both or neither of two addresses that share that many. */
  lemma CoversBoth(k: Key, a: Address, b: Address, len: nat)
    requires |k| <= len <= MAX_PREFIX_LEN && AddressKey(a)[..len] == AddressKey(b)[..len]
    ensures k <= AddressKey(a) <==> k <= AddressKey(b)
  {
    assert AddressKey(a)[..|k|] == AddressKey(a)[..len][..|k|];
    assert AddressKey(b)[..|k|] == AddressKey(b)[..len][..|k|];
  }

  lemma SameAnswer(t: Tree, addr: Address, other: Address, answer: Answer)
    requires AllVisible(Announced(t)) && RightAnswer(t, addr, answer)
    requires AddressKey(addr)[..MAX_VISIBLE_LEN] == AddressKey(other)[..MAX_VISIBLE_LEN]
    ensures RightAnswer(t, other, answer)
  {
    forall k | k in Announced(t) ensures k <= AddressKey(addr) <==> k <= AddressKey(other) {
      CoversBoth(k, addr, other, MAX_VISIBLE_LEN);
    }
  }

  /** The corner's answer is the answer for everything the pixel speaks for. */
  lemma CornerAnswers(t: Tree, x: Word, y: Word, corner: Address, addr: Address, answer: Answer)
    requires PointOf(corner) == PointValue(PixelAxis(x), PixelAxis(y)) && RightAnswer(t, corner, answer)
    requires PixelShows(t, x, y, addr)
    ensures RightAnswer(t, addr, answer)
  {
    if PointOf(addr) == PointOf(corner) {
      PointInjective(addr, corner);
    } else {
      CellIsPrefix(x, y, corner, addr);
      SameAnswer(t, corner, addr, answer);
    }
  }

  /** The addresses of a cell are those that share the first 48 bits. */
  lemma CellIsPrefix(x: Word, y: Word, corner: Address, addr: Address)
    requires PointOf(corner) == PointValue(PixelAxis(x), PixelAxis(y))
    ensures PointOf(addr).x >= 0 && PointOf(addr).y >= 0
    ensures SameCell(PointOf(addr), x, y)
            <==> AddressKey(corner)[..MAX_VISIBLE_LEN] == AddressKey(addr)[..MAX_VISIBLE_LEN]
  {
    PixelAxisCell(x);
    PixelAxisCell(y);
    EvenPrefixIsSquare(corner, addr, CELL_BITS);
  }

  /** `fs_main` up to the colour, which depends on the answer's timestamp and the clock. */
  method FsMain(treeSlab: seq<Node>, root: nat, x: Word, y: Word, ghost t: Tree) returns (answer: Answer)
    requires Represents(treeSlab, t) && WellFormed(t) && root == RootSlot(t)
    ensures RightPixel(t, x, y, answer)
  {
    var addr := PointToIp(HilbertPoint(PixelAxis(x), PixelAxis(y)));
    var idx := LookupIn(treeSlab, root, addr, t);
    answer := if idx == 0 then NoRoute else Route(treeSlab[idx].prefix, treeSlab[idx].ts);
    IndexBelowIsPoint(addr, PixelAxis(x), PixelAxis(y));
    forall other: Address | PixelShows(t, x, y, other) ensures RightAnswer(t, other, answer) {
      CornerAnswers(t, x, y, addr, other, answer);
    }
  }
}
