/** Argon2: which block refers to which, and the order in which memory is filled
(common/monocypher.cpp:688-922; sections 3.3 and 3.4 of RFC 9106). The permutation of a block is a
parameter. */
module Argon2 {
  import opened Words
  import Blake2b

  // -------------------------------------------------------------------------- parameters

  /** A block of 1024 bytes. */
  type Block = b: seq<u64> | |b| == 128 witness seq(128, _ => 0)

  type Rounds = Block -> Block

  datatype Algorithm = Argon2d | Argon2i | Argon2id {
    function Code(): u64 {
      match this
      case Argon2d => 0
      case Argon2i => 1
      case Argon2id => 2
    }
  }

  /** `crypto_argon2_config`, after rounding the number of blocks down. */
  datatype Config = Config(segmentSize: nat, lanes: nat, passes: nat, algorithm: Algorithm) {
    ghost predicate Valid() {
      segmentSize >= 2 && lanes >= 1 && 4 * segmentSize < W32 && lanes < W32 && passes < W32
    }

    function LaneSize(): nat {
      4 * segmentSize
    }
  }

  /** `segment_size`, for the parameters the interface allows. */
  function SegmentSize(nbBlocks: nat, lanes: nat): (s: nat)
    requires lanes >= 1 && nbBlocks >= 8 * lanes
    ensures s >= 2
  {
    SegmentNumbers(nbBlocks, lanes);
    nbBlocks / lanes / 4
  }

  lemma SegmentNumbers(nbBlocks: nat, lanes: nat)
    requires lanes >= 1 && nbBlocks >= 8 * lanes
    ensures nbBlocks / lanes / 4 >= 2 && nbBlocks / lanes / 4 * 4 * lanes <= nbBlocks
  {
    var q := nbBlocks / lanes;
    assert q >= 8 by {
      if q <= 7 {
        MulMono(lanes, q, 7);
      }
    }
    MulMono(lanes, q / 4 * 4, q);
  }

  /** Every configuration that the interface allows can be run. */
  lemma ConfigIsRunnable(nbBlocks: u32, lanes: u32, passes: u32, algorithm: Algorithm)
    requires lanes >= 1 && nbBlocks as int >= 8 * lanes as int
    ensures Runnable(Config(SegmentSize(nbBlocks as nat, lanes as nat), lanes as nat, passes as nat, algorithm))
  {
    var s, n := SegmentSize(nbBlocks as nat, lanes as nat), lanes as nat;
    SegmentNumbers(nbBlocks as nat, n);
    assert 4 * s * n == s * 4 * n;
    MulMono(4 * s, 1, n);
  }

  /** Memory: a row of blocks for each lane. */
  type Memory = seq<seq<Block>>

  ghost predicate Shaped(c: Config, m: Memory) {
    |m| == c.lanes && forall l :: 0 <= l < |m| ==> |m[l]| == c.LaneSize()
  }

  // ---------------------------------------------------------------- the reference block

  /** Blocks 0 and 1 of each lane are filled before the first slice. */
  function PassOffset(pass: nat, slice: nat): nat {
    if pass == 0 && slice == 0 then 2 else 0
  }

  function Current(c: Config, slice: nat, block: nat): nat {
    slice * c.segmentSize + block
  }

  function Previous(c: Config, slice: nat, block: nat): int {
    if block == 0 && slice == 0 then c.LaneSize() - 1 else slice * c.segmentSize + block - 1
  }

  /** The position of a block that may be computed now. */
  ghost predicate InSlice(c: Config, pass: nat, slice: nat, block: nat) {
    c.Valid() && slice < 4 && PassOffset(pass, slice) <= block < c.segmentSize
  }

  function ReferenceLane(c: Config, pass: nat, slice: nat, segment: nat, seed: u64): nat
    requires c.lanes > 0
  {
    if pass == 0 && slice == 0 then segment else (seed as int / W32) % c.lanes
  }

  /** Section 3.4.1 of RFC 9106: J_2, the upper half, modulo the number of lanes; in the first slice of the
  first pass always the lane itself. */
  lemma ReferenceLaneIsRfc(c: Config, pass: nat, slice: nat, segment: nat, j1: u32, j2: u32)
    requires c.lanes > 0
    ensures ReferenceLane(c, pass, slice, segment, j1 as u64 + 0x1_0000_0000 * j2 as u64)
            == if (pass, slice) == (0, 0) then segment else j2 as int % c.lanes
  {
  }

  /** `window_size`, with its wrap-around in 32 bits. */
  function WindowSize(c: Config, pass: nat, slice: nat, same: bool, block: nat): nat {
    var segments := if pass == 0 then slice else 3;
    (segments * c.segmentSize + (if same then (block - 1) % W32 else if block == 0 then W32 - 1 else 0)) % W32
  }

  function ReferencePosition(c: Config, pass: nat, slice: nat, same: bool, block: nat, seed: u64): (p: nat)
    requires c.LaneSize() > 0
    requires WindowSize(c, pass, slice, same, block) > 0
    ensures p < c.LaneSize()
  {
    var start := if pass == 0 then 0 else (slice + 1) % 4 * c.segmentSize;
    var size := WindowSize(c, pass, slice, same, block);
    var j1 := seed as int % W32;
    SelectorInWindow(size, j1);
    var x := j1 * j1 / W32;
    var y := size * x / W32;
    var z := size - 1 - y;
    (start + z) % c.LaneSize()
  }

  /** The selection formula stays inside the window. */
  lemma SelectorInWindow(size: nat, j1: nat)
    requires 0 < size && j1 < W32
    ensures 0 <= j1 * j1 / W32 < W32 && 0 <= size * (j1 * j1 / W32) / W32 < size
  {
    MulMono(j1, 0, j1);
    MulMono(j1, j1, W32 - 1);
    MulMono(W32 - 1, j1, W32 - 1);
    var x := j1 * j1 / W32;
    assert j1 * j1 < W32 * W32;
    DivBelow(j1 * j1, W32, W32);
    MulMono(size, 0, x);
    MulMono(size, x, W32 - 1);
    DivBelow(size * x, W32, size);
  }

  lemma DivBelow(a: nat, m: nat, b: nat)
    requires m > 0 && a < m * b
    ensures a / m < b
  {
    var q := a / m;
    if q >= b {
      MulMono(m, b, q);
    }
  }

  /** No wrap-around is left in the window: its exact size, which is never zero. */
  lemma WindowIs(c: Config, pass: nat, slice: nat, same: bool, block: nat)
    requires InSlice(c, pass, slice, block) && (pass == 0 && slice == 0 ==> same)
    ensures WindowSize(c, pass, slice, same, block)
            == (if pass == 0 then slice else 3) * c.segmentSize
               + (if same then block - 1 else if block == 0 then -1 else 0)
    ensures 0 < WindowSize(c, pass, slice, same, block) < c.LaneSize()
  {
    var s := c.segmentSize;
    var segments := if pass == 0 then slice else 3;
    assert segments == 0 || segments == 1 || segments == 2 || segments == 3;
    var base := segments * s;
    assert base == 0 || base == s || base == 2 * s || base == 3 * s;
    assert segments > 0 ==> base >= s;
    assert base <= 3 * s;
    var add := if same then block - 1 else if block == 0 then -1 else 0;
    assert 0 < base + add < 4 * s;
    WrapOnce(base, add, (if same then (block - 1) % W32 else if block == 0 then W32 - 1 else 0));
  }

  lemma WrapOnce(base: nat, add: int, wrapped: nat)
    requires 0 <= base + add < W32 && -1 <= add < W32 && wrapped == add % W32
    ensures (base + wrapped) % W32 == base + add
  {
  }

  /** The reference block is in range and already computed: in the first pass it comes from an
  earlier slice or earlier in this segment; later passes refer to the rest of the lane. It is
  never the current or the previous block, and in another lane never in the current slice. */
  lemma ReferenceIsConstructed(c: Config, pass: nat, slice: nat, same: bool, block: nat, seed: u64)
    requires InSlice(c, pass, slice, block) && (pass == 0 && slice == 0 ==> same)
    ensures 0 < WindowSize(c, pass, slice, same, block)
    ensures var p := ReferencePosition(c, pass, slice, same, block, seed);
      && p < c.LaneSize()
      && p != Current(c, slice, block) && p != Previous(c, slice, block)
      && (same && slice * c.segmentSize <= p < (slice + 1) * c.segmentSize ==> p < Current(c, slice, block))
      && (!same ==> !(slice * c.segmentSize <= p < (slice + 1) * c.segmentSize))
      && (pass == 0 ==> p < (if same then Current(c, slice, block) else slice * c.segmentSize))
  {
    WindowIs(c, pass, slice, same, block);
    var size := WindowSize(c, pass, slice, same, block);
    var j1 := seed as int % W32;
    SelectorInWindow(size, j1);
    var z := size - 1 - size * (j1 * j1 / W32) / W32;
    var start := if pass == 0 then 0 else (slice + 1) % 4 * c.segmentSize;
    assert ReferencePosition(c, pass, slice, same, block, seed) == (start + z) % c.LaneSize();
    hide ReferencePosition, WindowSize;
    WindowPosition(c.segmentSize, pass, slice, same, block, size, start, z, (start + z) % c.LaneSize());
  }

  lemma WindowPosition(s: nat, pass: nat, slice: nat, same: bool, block: nat, size: nat, start: nat, z: int, p: nat)
    requires s >= 2 && slice < 4 && PassOffset(pass, slice) <= block < s && (pass == 0 && slice == 0 ==> same)
    requires size == (if pass == 0 then slice else 3) * s + (if same then block - 1 else if block == 0 then -1 else 0)
    requires start == (if pass == 0 then 0 else (slice + 1) % 4 * s) && 0 <= z < size
    requires p == (start + z) % (4 * s)
    ensures p < 4 * s && p != slice * s + block
    ensures p != (if block == 0 && slice == 0 then 4 * s - 1 else slice * s + block - 1)
    ensures same && slice * s <= p < (slice + 1) * s ==> p < slice * s + block
    ensures !same ==> !(slice * s <= p < (slice + 1) * s)
    ensures pass == 0 ==> p < (if same then slice * s + block else slice * s)
  {
    if start + z < 4 * s {
      ModUnique(start + z, 4 * s, 0, start + z);
    } else {
      assert start + z < 8 * s;
      ModUnique(start + z, 4 * s, 1, start + z - 4 * s);
    }
    if slice == 0 {
    } else if slice == 1 {
    } else if slice == 2 {
    } else {
    }
  }

  // The window of section 3.4.2 of RFC 9106, and its order.

  /** When position p of a lane was last written, counted in blocks of the lane. */
  function Written(c: Config, pass: nat, slice: nat, same: bool, block: nat, p: nat): int {
    var now := if same then Current(c, slice, block) else slice * c.segmentSize;
    if p < now then pass * c.LaneSize() + p else (pass - 1) * c.LaneSize() + p
  }

  /** The blocks to choose from: those of the finished segments that the current one does not replace,
  in the lane itself also those of the current segment, but never the newest block of all if it is
  the previous block, or if this is the first block of a segment. */
  ghost predicate InWindow(c: Config, pass: nat, slice: nat, same: bool, block: nat, p: nat) {
    var start := slice * c.segmentSize;
    && p < c.LaneSize() && Written(c, pass, slice, same, block, p) >= 0
    && (p < start || p >= start + c.segmentSize || (same && p < start + block))
    && (same || block == 0 ==> p != Previous(c, slice, block))
  }

  /** Number i of the window. */
  function WindowAt(c: Config, pass: nat, slice: nat, i: nat): nat
    requires c.LaneSize() > 0
  {
    ((if pass == 0 then 0 else (slice + 1) % 4 * c.segmentSize) + i) % c.LaneSize()
  }

  /** The numbers below the window size stand for the window, from its oldest block to its newest. */
  lemma WindowInOrder(c: Config, pass: nat, slice: nat, same: bool, block: nat, i: nat)
    requires InSlice(c, pass, slice, block) && (pass == 0 && slice == 0 ==> same)
    requires i < WindowSize(c, pass, slice, same, block)
    ensures var p, oldest := WindowAt(c, pass, slice, i), WindowAt(c, pass, slice, 0);
      && InWindow(c, pass, slice, same, block, p)
      && Written(c, pass, slice, same, block, p) == Written(c, pass, slice, same, block, oldest) + i
  {
    WindowIs(c, pass, slice, same, block);
    hide WindowSize, Written, InWindow;
    RoundTheLane(c.segmentSize, pass, slice, 0);
    RoundTheLane(c.segmentSize, pass, slice, i);
    PassOrder(pass, 4 * c.segmentSize);
    var p, oldest := WindowAt(c, pass, slice, i), WindowAt(c, pass, slice, 0);
    hide WindowAt;
    var t, before := pass * (4 * c.segmentSize), (pass - 1) * (4 * c.segmentSize);
    InOrder(c.segmentSize, pass, slice, same, block, i, p, oldest, t, before);
    WrittenIs(c, pass, slice, same, block, p, t, before);
    WrittenIs(c, pass, slice, same, block, oldest, t, before);
  }

  lemma WrittenIs(c: Config, pass: nat, slice: nat, same: bool, block: nat, p: nat, t: int, before: int)
    requires t == pass * (4 * c.segmentSize) && before == (pass - 1) * (4 * c.segmentSize)
    ensures var start := slice * c.segmentSize;
      var now := if same then start + block else start;
      var previous := if block == 0 && slice == 0 then 4 * c.segmentSize - 1 else start + block - 1;
      && Written(c, pass, slice, same, block, p) == (if p < now then t + p else before + p)
      && (InWindow(c, pass, slice, same, block, p) <==>
            && p < 4 * c.segmentSize && Written(c, pass, slice, same, block, p) >= 0
            && (p < start || p >= start + c.segmentSize || (same && p < start + block))
            && (same || block == 0 ==> p != previous))
  {
  }

  lemma InOrder(s: nat, pass: nat, slice: nat, same: bool, block: nat, i: nat, p: nat, oldest: nat, t: int, before: int)
    requires s >= 2 && slice < 4 && PassOffset(pass, slice) <= block < s && (pass == 0 && slice == 0 ==> same)
    requires t == before + 4 * s && (if pass == 0 then t == 0 else before >= 0)
    requires i < (if pass == 0 then slice else 3) * s + (if same then block - 1 else if block == 0 then -1 else 0)
    requires var start := if pass == 0 || slice == 3 then 0 else (slice + 1) * s;
      oldest == start && p == if start + i < 4 * s then start + i else start + i - 4 * s
    ensures var start := slice * s;
      var now := if same then start + block else start;
      var previous := if block == 0 && slice == 0 then 4 * s - 1 else start + block - 1;
      && p < 4 * s && (if p < now then t + p else before + p) >= 0
      && (p < start || p >= start + s || (same && p < start + block))
      && (same || block == 0 ==> p != previous)
      && (if p < now then t + p else before + p) == (if oldest < now then t + oldest else before + oldest) + i
  {
    SliceBounds(s, slice);
  }

  lemma SliceBounds(s: nat, slice: nat)
    requires slice < 4
    ensures slice == 0 ==> slice * s == 0 && (slice + 1) * s == s
    ensures slice == 1 ==> slice * s == s && (slice + 1) * s == 2 * s
    ensures slice == 2 ==> slice * s == 2 * s && (slice + 1) * s == 3 * s
    ensures slice == 3 ==> slice * s == 3 * s
  {
  }

  lemma PassOrder(pass: nat, size: nat)
    ensures pass * size == (pass - 1) * size + size
    ensures if pass == 0 then pass * size == 0 else (pass - 1) * size >= 0
  {
    if pass > 0 {
      MulMono(size, 0, pass - 1);
    }
  }

  lemma RoundTheLane(s: nat, pass: nat, slice: nat, i: nat)
    requires s >= 2 && slice < 4 && i < 4 * s
    ensures var start := if pass == 0 || slice == 3 then 0 else (slice + 1) * s;
      ((if pass == 0 then 0 else (slice + 1) % 4 * s) + i) % (4 * s) == if start + i < 4 * s then start + i else start + i - 4 * s
  {
    var start := if pass == 0 || slice == 3 then 0 else (slice + 1) * s;
    assert (slice + 1) % 4 == if slice == 3 then 0 else slice + 1;
    if start + i < 4 * s {
      ModUnique(start + i, 4 * s, 0, start + i);
    } else {
      ModUnique(start + i, 4 * s, 1, start + i - 4 * s);
    }
  }

  /** And for all of it. */
  lemma WindowComplete(c: Config, pass: nat, slice: nat, same: bool, block: nat, p: nat) returns (i: nat)
    requires InSlice(c, pass, slice, block) && (pass == 0 && slice == 0 ==> same)
    requires InWindow(c, pass, slice, same, block, p)
    ensures i < WindowSize(c, pass, slice, same, block) && WindowAt(c, pass, slice, i) == p
  {
    WindowIs(c, pass, slice, same, block);
    PassOrder(pass, c.LaneSize());
    hide WindowSize;
    i := Place(c.segmentSize, pass, slice, same, block, p, pass * c.LaneSize(), (pass - 1) * c.LaneSize());
    RoundTheLane(c.segmentSize, pass, slice, i);
  }

  lemma Place(s: nat, pass: nat, slice: nat, same: bool, block: nat, p: nat, t: int, before: int) returns (i: nat)
    requires s >= 2 && slice < 4 && PassOffset(pass, slice) <= block < s && (pass == 0 && slice == 0 ==> same)
    requires t == before + 4 * s && (if pass == 0 then t == 0 else before >= 0)
    requires var start := slice * s;
      var now := if same then start + block else start;
      var previous := if block == 0 && slice == 0 then 4 * s - 1 else start + block - 1;
      && p < 4 * s && (if p < now then t + p else before + p) >= 0
      && (p < start || p >= start + s || (same && p < start + block))
      && (same || block == 0 ==> p != previous)
    ensures i < (if pass == 0 then slice else 3) * s + (if same then block - 1 else if block == 0 then -1 else 0)
    ensures i < 4 * s
    ensures var start := if pass == 0 || slice == 3 then 0 else (slice + 1) * s;
      p == if start + i < 4 * s then start + i else start + i - 4 * s
  {
    SliceBounds(s, slice);
    var start := if pass == 0 || slice == 3 then 0 else (slice + 1) * s;
    i := if start <= p then p - start else p + 4 * s - start;
  }

  /** The reference is a block of the window: the newest one for selector 0, and never a newer one for a
  greater selector. */
  lemma ReferenceFromWindow(c: Config, pass: nat, slice: nat, same: bool, block: nat, seed: u64) returns (i: nat)
    requires InSlice(c, pass, slice, block) && (pass == 0 && slice == 0 ==> same)
    ensures 0 < WindowSize(c, pass, slice, same, block) && i < WindowSize(c, pass, slice, same, block)
    ensures ReferencePosition(c, pass, slice, same, block, seed) == WindowAt(c, pass, slice, i)
    ensures i == Selected(WindowSize(c, pass, slice, same, block), seed as int % W32)
  {
    WindowIs(c, pass, slice, same, block);
    SelectorInWindow(WindowSize(c, pass, slice, same, block), seed as int % W32);
    i := Selected(WindowSize(c, pass, slice, same, block), seed as int % W32);
  }

  /** Which one of `size` blocks a selector selects. */
  function Selected(size: nat, j1: nat): nat
    requires 0 < size && j1 < W32
  {
    SelectorInWindow(size, j1);
    size - 1 - size * (j1 * j1 / W32) / W32
  }

  lemma SelectedOrder(size: nat, j1: nat, j2: nat)
    requires 0 < size && j1 <= j2 < W32
    ensures Selected(size, 0) == size - 1 && Selected(size, j2) <= Selected(size, j1)
  {
    MulMono(j1, j1, j2);
    MulMono(j2, j1, j2);
    DivMono(j1 * j1, j2 * j2, W32);
    MulMono(size, j1 * j1 / W32, j2 * j2 / W32);
    DivMono(size * (j1 * j1 / W32), size * (j2 * j2 / W32), W32);
    SelectNewest(size);
  }

  lemma SelectNewest(size: nat)
    requires 0 < size
    ensures Selected(size, 0) == size - 1
  {
    assert 0 / W32 == 0;
  }

  lemma DivMono(a: nat, b: nat, m: nat)
    requires a <= b && m > 0
    ensures a / m <= b / m
  {
    if a / m > b / m {
      MulMono(m, b / m + 1, a / m);
    }
  }

  // ------------------------------------------------------------------------- one block

  function Xor64(a: u64, b: u64): u64 {
    assert BitXor(a as nat, b as nat) < 0x1_0000_0000_0000_0000 by {
      LargePowers();
      XorBound(a as nat, b as nat, 64);
    }
    BitXor(a as nat, b as nat) as u64
  }

  /** `xor_block` */
  function XorBlock(a: Block, b: Block): Block {
    seq(128, i requires 0 <= i < 128 => Xor64(a[i], b[i]))
  }

  /** `constant_time`: Argon2id gives it up after the first two slices. */
  function ConstantTime(algorithm: Algorithm, pass: nat, slice: nat): bool {
    algorithm != Argon2d && !(algorithm == Argon2id && (pass > 0 || slice >= 2))
  }

  /** The deterministic indices of blocks 128 * (ctr - 1) to 128 * ctr - 1 of a segment. */
  function IndexBlock(g: Rounds, c: Config, pass: nat, slice: nat, segment: nat, ctr: nat): Block
    requires c.Valid() && pass < W32 && slice < 4 && segment < W32 && ctr < W32
    requires c.LaneSize() * c.lanes < W32
  {
    var seed: Block := [pass as u64, segment as u64, slice as u64, (c.LaneSize() * c.lanes) as u64, c.passes as u64,
                        c.algorithm.Code(), ctr as u64] + seq(121, _ => 0);
    Shuffle(g, Shuffle(g, seed))
  }

  function Shuffle(g: Rounds, b: Block): Block {
    XorBlock(g(b), b)
  }

  /** What the fill of one slice depends on besides the memory. */
  datatype Slot = Slot(g: Rounds, c: Config, pass: nat, slice: nat) {
    ghost predicate Valid() {
      c.Valid() && c.LaneSize() * c.lanes < W32 && pass < W32 && slice < 4
    }

    /** How many blocks a segment computes. */
    function Length(): int {
      c.segmentSize - PassOffset(pass, slice)
    }
  }

  /** `index_seed` */
  function IndexSeed(s: Slot, segment: nat, block: nat, previous: Block): u64
    requires s.Valid() && segment < s.c.lanes && block < s.c.segmentSize
  {
    if ConstantTime(s.c.algorithm, s.pass, s.slice) then
      IndexBlock(s.g, s.c, s.pass, s.slice, segment, block / 128 + 1)[block % 128]
    else
      previous[0]
  }

  /** `shuffle the previous & reference block into the current block` */
  function Mixed(s: Slot, current: Block, previous: Block, reference: Block): Block {
    var tmp := XorBlock(previous, reference);
    XorBlock(if s.pass == 0 then tmp else XorBlock(current, tmp), s.g(tmp))
  }

  /** The compression function G of section 3.5 of RFC 9106: R = X xor Y, and R xor P(R). */
  function Compressed(g: Rounds, x: Block, y: Block): Block {
    var r := XorBlock(x, y);
    XorBlock(r, g(r))
  }

  /** Section 3.2 of RFC 9106: G of the previous and the reference block, XORed with the old block from
  the second pass on. */
  lemma MixedIsRfc(s: Slot, current: Block, previous: Block, reference: Block)
    ensures Mixed(s, current, previous, reference)
            == if s.pass == 0 then Compressed(s.g, previous, reference)
               else XorBlock(current, Compressed(s.g, previous, reference))
  {
    hide XorBlock;
    var r := XorBlock(previous, reference);
    XorBlockAssoc(current, r, s.g(r));
  }

  /** Section 3.4.1.2 of RFC 9106: G(0, G(0, Z)). */
  lemma ShuffleIsRfc(g: Rounds, b: Block)
    ensures Shuffle(g, b) == Compressed(g, seq(128, _ => 0), b)
  {
    var zero: Block := seq(128, _ => 0);
    hide Xor64;
    forall i | 0 <= i < 128 ensures XorBlock(zero, b)[i] == b[i] {
      Xor64Zero(b[i]);
    }
    assert XorBlock(zero, b) == b;
    forall i | 0 <= i < 128 ensures XorBlock(g(b), b)[i] == XorBlock(b, g(b))[i] {
      Xor64Comm(g(b)[i], b[i]);
    }
  }

  /** Section 3.4.1.2 of RFC 9106: pass, lane, slice, number of blocks, number of passes, type, and counter. */
  lemma IndexBlockIsRfc(g: Rounds, c: Config, pass: u32, slice: u32, segment: u32, ctr: u32)
    requires c.Valid() && slice < 4 && c.LaneSize() * c.lanes < W32
    ensures var zero: Block := seq(128, _ => 0);
      var kind := match c.algorithm case Argon2d => 0 case Argon2i => 1 case Argon2id => 2;
      var z: Block := [pass as u64, segment as u64, slice as u64, (4 * c.segmentSize * c.lanes) as u64, c.passes as u64,
                       kind, ctr as u64] + seq(121, _ => 0);
      IndexBlock(g, c, pass as nat, slice as nat, segment as nat, ctr as nat) == Compressed(g, zero, Compressed(g, zero, z))
  {
    hide Shuffle, Compressed;
    var z: Block := [pass as u64, segment as u64, slice as u64, (c.LaneSize() * c.lanes) as u64, c.passes as u64,
                     c.algorithm.Code(), ctr as u64] + seq(121, _ => 0);
    ShuffleIsRfc(g, z);
    ShuffleIsRfc(g, Shuffle(g, z));
  }

  lemma Xor64Zero(a: u64)
    ensures Xor64(0, a) == a
  {
    hide BitXor;
    XorZero(a as nat);
  }

  lemma Xor64Comm(a: u64, b: u64)
    ensures Xor64(a, b) == Xor64(b, a)
  {
    hide BitXor;
    XorComm(a as nat, b as nat);
  }

  lemma XorBlockAssoc(a: Block, b: Block, c: Block)
    ensures XorBlock(XorBlock(a, b), c) == XorBlock(a, XorBlock(b, c))
  {
    hide Xor64;
    forall i | 0 <= i < 128 ensures XorBlock(XorBlock(a, b), c)[i] == XorBlock(a, XorBlock(b, c))[i] {
      Xor64Assoc(a[i], b[i], c[i]);
    }
  }

  lemma Xor64Assoc(a: u64, b: u64, c: u64)
    ensures Xor64(Xor64(a, b), c) == Xor64(a, Xor64(b, c))
  {
    hide BitXor;
    XorAssoc(a as nat, b as nat, c as nat);
  }

  /** A segment in the middle of its work: n blocks done, at least one to do. */
  ghost predicate CanStep(s: Slot, m: Memory, l: nat, n: nat) {
    s.Valid() && Shaped(s.c, m) && l < s.c.lanes && n < s.Length()
  }

  /** The lane and position block number n of a segment refers to. */
  ghost function Reference(s: Slot, l: nat, n: nat, previous: Block): (r: (nat, nat))
    requires s.Valid() && l < s.c.lanes && n < s.Length()
    ensures r.0 < s.c.lanes && r.1 < s.c.LaneSize()
  {
    var block := PassOffset(s.pass, s.slice) + n;
    var seed := IndexSeed(s, l, block, previous);
    var lane := ReferenceLane(s.c, s.pass, s.slice, l, seed);
    ReferenceIsConstructed(s.c, s.pass, s.slice, lane == l, block, seed);
    (lane, ReferencePosition(s.c, s.pass, s.slice, lane == l, block, seed))
  }

  lemma ReferenceIsFilled(s: Slot, l: nat, n: nat, previous: Block)
    requires s.Valid() && l < s.c.lanes && n < s.Length()
    ensures var (lane, p) := Reference(s, l, n, previous);
      && (lane != l ==> !(Start(s) <= p < Start(s) + s.c.segmentSize))
      && (s.pass == 0 ==> p < if lane == l then Start(s) + PassOffset(s.pass, s.slice) + n else FilledBefore(s))
  {
    hide IndexSeed, ReferencePosition, WindowSize;
    var block := PassOffset(s.pass, s.slice) + n;
    var seed := IndexSeed(s, l, block, previous);
    var lane := ReferenceLane(s.c, s.pass, s.slice, l, seed);
    ReferenceIsConstructed(s.c, s.pass, s.slice, lane == l, block, seed);
    SliceStart(s);
  }

  /** Block number n of a segment, computed from memory m. */
  ghost function NextBlock(s: Slot, m: Memory, l: nat, n: nat): Block
    requires CanStep(s, m, l, n)
  {
    var block := PassOffset(s.pass, s.slice) + n;
    Positions(s, block);
    var previous := m[l][Previous(s.c, s.slice, block)];
    var (lane, p) := Reference(s, l, n, previous);
    Mixed(s, m[l][Current(s.c, s.slice, block)], previous, m[lane][p])
  }

  lemma Positions(s: Slot, block: nat)
    requires s.Valid() && PassOffset(s.pass, s.slice) <= block < s.c.segmentSize
    ensures 0 <= Current(s.c, s.slice, block) < s.c.LaneSize() && 0 <= Previous(s.c, s.slice, block) < s.c.LaneSize()
    ensures Current(s.c, s.slice, block) != Previous(s.c, s.slice, block)
    ensures Start(s) <= Current(s.c, s.slice, block) < Start(s) + s.c.segmentSize
  {
    SliceStart(s);
  }

  /** Where the slice starts in each lane. */
  ghost function Start(s: Slot): nat {
    s.slice * s.c.segmentSize
  }

  lemma SliceStart(s: Slot)
    requires s.Valid()
    ensures Start(s) + s.c.segmentSize <= s.c.LaneSize()
    ensures s.slice == 0 <==> Start(s) == 0
    ensures (s.slice + 1) * s.c.segmentSize == Start(s) + s.c.segmentSize
  {
    var z := s.c.segmentSize;
    assert s.slice == 0 || s.slice == 1 || s.slice == 2 || s.slice == 3;
  }

  /** One turn of the block loop. */
  ghost function Step(s: Slot, m: Memory, l: nat, n: nat): (m': Memory)
    requires CanStep(s, m, l, n)
    ensures Shaped(s.c, m') && forall k :: 0 <= k < s.c.lanes && k != l ==> m'[k] == m[k]
  {
    var block := PassOffset(s.pass, s.slice) + n;
    Positions(s, block);
    var row: seq<Block> := m[l][Current(s.c, s.slice, block) := NextBlock(s, m, l, n)];
    m[l := row]
  }

  /** Outside the current slice, every lane is the same. */
  ghost predicate SameOutside(s: Slot, a: Memory, b: Memory)
    requires Shaped(s.c, a) && Shaped(s.c, b)
  {
    forall k, p :: 0 <= k < s.c.lanes && 0 <= p < s.c.LaneSize() && !(Start(s) <= p < Start(s) + s.c.segmentSize)
      ==> a[k][p] == b[k][p]
  }

  /** A block depends on its own lane, and on the other lanes outside the current slice only. */
  lemma NextBlockLocal(s: Slot, a: Memory, b: Memory, l: nat, n: nat)
    requires CanStep(s, a, l, n) && CanStep(s, b, l, n) && a[l] == b[l] && SameOutside(s, a, b)
    ensures NextBlock(s, a, l, n) == NextBlock(s, b, l, n)
  {
    hide Reference, Mixed;
    var block := PassOffset(s.pass, s.slice) + n;
    Positions(s, block);
    var (lane, p) := Reference(s, l, n, a[l][Previous(s.c, s.slice, block)]);
    ReferenceIsFilled(s, l, n, a[l][Previous(s.c, s.slice, block)]);
    assert a[lane][p] == b[lane][p];
  }

  lemma StepOutside(s: Slot, m: Memory, l: nat, n: nat)
    requires CanStep(s, m, l, n)
    ensures SameOutside(s, m, Step(s, m, l, n))
  {
    hide NextBlock, Start;
    Positions(s, PassOffset(s.pass, s.slice) + n);
  }

  // ------------------------------------------------------------------------- schedules

  /** Lane l on its own: n steps from memory m. */
  ghost function RunLane(s: Slot, m: Memory, l: nat, n: nat): (m': Memory)
    requires s.Valid() && Shaped(s.c, m) && l < s.c.lanes && n <= s.Length()
    ensures Shaped(s.c, m')
  {
    if n == 0 then m else Step(s, RunLane(s, m, l, n - 1), l, n - 1)
  }

  lemma {:induction false} RunLaneOutside(s: Slot, m: Memory, l: nat, n: nat)
    requires s.Valid() && Shaped(s.c, m) && l < s.c.lanes && n <= s.Length()
    ensures SameOutside(s, m, RunLane(s, m, l, n))
    ensures forall k :: 0 <= k < s.c.lanes && k != l ==> RunLane(s, m, l, n)[k] == m[k]
  {
    hide Start, Step;
    if n > 0 {
      RunLaneOutside(s, m, l, n - 1);
      StepOutside(s, RunLane(s, m, l, n - 1), l, n - 1);
    }
  }

  ghost function Count(schedule: seq<nat>, l: nat): nat {
    if schedule == [] then 0
    else Count(schedule[..|schedule| - 1], l) + (if schedule[|schedule| - 1] == l then 1 else 0)
  }

  /** A schedule names the lane that takes each step. */
  ghost predicate IsSchedule(s: Slot, schedule: seq<nat>) {
    s.Valid() && (forall i :: 0 <= i < |schedule| ==> schedule[i] < s.c.lanes)
    && forall l :: 0 <= l < s.c.lanes ==> Count(schedule, l) <= s.Length()
  }

  /** Every segment runs to its end. */
  ghost predicate IsComplete(s: Slot, schedule: seq<nat>) {
    IsSchedule(s, schedule) && forall l :: 0 <= l < s.c.lanes ==> Count(schedule, l) == s.Length()
  }

  lemma SchedulePrefix(s: Slot, schedule: seq<nat>)
    requires IsSchedule(s, schedule) && schedule != []
    ensures var before := schedule[..|schedule| - 1]; var l := schedule[|schedule| - 1];
      IsSchedule(s, before) && l < s.c.lanes && Count(before, l) < s.Length()
  {
    var before, last := schedule[..|schedule| - 1], schedule[|schedule| - 1];
    forall l | 0 <= l < s.c.lanes ensures Count(before, l) <= s.Length() {
      assert Count(schedule, l) <= s.Length();
    }
    assert Count(schedule, last) == Count(before, last) + 1;
  }

  /** The segments of a slice, interleaved. */
  ghost function RunSchedule(s: Slot, m: Memory, schedule: seq<nat>): (m': Memory)
    requires IsSchedule(s, schedule) && Shaped(s.c, m)
    ensures Shaped(s.c, m')
    decreases |schedule|
  {
    if schedule == [] then m
    else
      SchedulePrefix(s, schedule);
      var before, l := schedule[..|schedule| - 1], schedule[|schedule| - 1];
      Step(s, RunSchedule(s, m, before), l, Count(before, l))
  }

  /** Each lane holds what it would hold had it run alone. */
  ghost predicate EachAlone(s: Slot, m0: Memory, m: Memory, counts: nat -> nat)
    requires s.Valid() && Shaped(s.c, m0)
  {
    Shaped(s.c, m)
    && forall l :: 0 <= l < s.c.lanes ==> counts(l) <= s.Length() && m[l] == RunLane(s, m0, l, counts(l))[l]
  }

  /** One step of lane l takes it one step further alone, whatever the other lanes are doing. */
  lemma StepAlone(s: Slot, m0: Memory, m: Memory, counts: nat -> nat, l: nat)
    requires s.Valid() && Shaped(s.c, m0) && EachAlone(s, m0, m, counts) && l < s.c.lanes && counts(l) < s.Length()
    ensures CanStep(s, m, l, counts(l))
    ensures EachAlone(s, m0, Step(s, m, l, counts(l)), k => if k == l then counts(l) + 1 else counts(k))
  {
    hide Start, NextBlock;
    var n := counts(l);
    var alone := RunLane(s, m0, l, n);
    AloneOutside(s, m0, m, counts, l);
    NextBlockLocal(s, m, alone, l, n);
    assert Step(s, m, l, n)[l] == Step(s, alone, l, n)[l];
    assert RunLane(s, m0, l, n + 1) == Step(s, alone, l, n);
  }

  lemma AloneOutside(s: Slot, m0: Memory, m: Memory, counts: nat -> nat, l: nat)
    requires s.Valid() && Shaped(s.c, m0) && EachAlone(s, m0, m, counts) && l < s.c.lanes
    ensures SameOutside(s, m, RunLane(s, m0, l, counts(l)))
  {
    hide Start, Step;
    var alone := RunLane(s, m0, l, counts(l));
    RunLaneOutside(s, m0, l, counts(l));
    forall k, p | 0 <= k < s.c.lanes && 0 <= p < s.c.LaneSize() && !(Start(s) <= p < Start(s) + s.c.segmentSize)
      ensures m[k][p] == alone[k][p]
    {
      RunLaneOutside(s, m0, k, counts(k));
      assert m[k] == RunLane(s, m0, k, counts(k))[k];
      assert RunLane(s, m0, k, counts(k))[k][p] == m0[k][p] == alone[k][p];
    }
  }

  lemma {:induction false} ScheduleAlone(s: Slot, m: Memory, schedule: seq<nat>)
    requires IsSchedule(s, schedule) && Shaped(s.c, m)
    ensures EachAlone(s, m, RunSchedule(s, m, schedule), l => Count(schedule, l))
    decreases |schedule|
  {
    hide Step;
    if schedule != [] {
      SchedulePrefix(s, schedule);
      var before, l := schedule[..|schedule| - 1], schedule[|schedule| - 1];
      ScheduleAlone(s, m, before);
      StepAlone(s, m, RunSchedule(s, m, before), k => Count(before, k), l);
    }
  }

  /** The memory after a slice: every lane as if it had run alone. */
  ghost function FillSlice(s: Slot, m: Memory): (m': Memory)
    requires s.Valid() && Shaped(s.c, m)
    ensures Shaped(s.c, m')
  {
    seq(s.c.lanes, l requires 0 <= l < s.c.lanes => RunLane(s, m, l, s.Length())[l])
  }

  /** The segments of a slice may run in any order, or interleaved in any way. */
  lemma AnyOrder(s: Slot, m: Memory, schedule: seq<nat>)
    requires IsComplete(s, schedule) && Shaped(s.c, m)
    ensures RunSchedule(s, m, schedule) == FillSlice(s, m)
  {
    hide RunLane, RunSchedule;
    ScheduleAlone(s, m, schedule);
    var r := RunSchedule(s, m, schedule);
    forall l | 0 <= l < s.c.lanes ensures r[l] == FillSlice(s, m)[l] {
      assert Count(schedule, l) == s.Length();
    }
  }

  // ---------------------------------------------------- nothing unfilled is ever read

  /** Below a position, in every lane, two memories hold the same. */
  ghost predicate AgreeBelow(c: Config, a: Memory, b: Memory, limit: nat)
    requires Shaped(c, a) && Shaped(c, b)
  {
    forall k, p :: 0 <= k < c.lanes && 0 <= p < c.LaneSize() && p < limit ==> a[k][p] == b[k][p]
  }

  /** What is filled before a slice of the first pass. */
  ghost function FilledBefore(s: Slot): nat {
    if s.slice == 0 then 2 else Start(s)
  }

  /** In the first pass, a block depends on blocks already filled only. */
  lemma NextBlockFilled(s: Slot, a: Memory, b: Memory, l: nat, n: nat)
    requires s.pass == 0 && CanStep(s, a, l, n) && CanStep(s, b, l, n)
    requires AgreeBelow(s.c, a, b, FilledBefore(s))
    requires forall p :: 0 <= p < s.c.LaneSize() && p < Start(s) + PassOffset(s.pass, s.slice) + n ==> a[l][p] == b[l][p]
    ensures NextBlock(s, a, l, n) == NextBlock(s, b, l, n)
  {
    hide Reference, XorBlock, Start;
    var block := PassOffset(s.pass, s.slice) + n;
    Positions(s, block);
    PreviousFilled(s, block);
    var (lane, p) := Reference(s, l, n, a[l][Previous(s.c, s.slice, block)]);
    ReferenceIsFilled(s, l, n, a[l][Previous(s.c, s.slice, block)]);
    assert a[lane][p] == b[lane][p];
  }

  lemma PreviousFilled(s: Slot, block: nat)
    requires s.Valid() && s.pass == 0 && PassOffset(s.pass, s.slice) <= block < s.c.segmentSize
    ensures Previous(s.c, s.slice, block) < Start(s) + block
  {
  }

  /** Two memories that agree on what is filled, n blocks into segment l. */
  ghost predicate AgreeFilled(s: Slot, a: Memory, b: Memory, l: nat, n: nat)
    requires Shaped(s.c, a) && Shaped(s.c, b)
  {
    AgreeBelow(s.c, a, b, FilledBefore(s))
    && (l < s.c.lanes ==> forall p :: 0 <= p < s.c.LaneSize() && p < Start(s) + PassOffset(s.pass, s.slice) + n
                                      ==> a[l][p] == b[l][p])
  }

  lemma StepFilled(s: Slot, a: Memory, b: Memory, l: nat, n: nat)
    requires s.pass == 0 && CanStep(s, a, l, n) && CanStep(s, b, l, n) && AgreeFilled(s, a, b, l, n)
    ensures AgreeFilled(s, Step(s, a, l, n), Step(s, b, l, n), l, n + 1)
  {
    Positions(s, PassOffset(s.pass, s.slice) + n);
    SliceStart(s);
    NextBlockFilled(s, a, b, l, n);
    hide NextBlock;
  }

  lemma {:induction false} RunLaneFilled(s: Slot, a: Memory, b: Memory, l: nat, n: nat)
    requires s.Valid() && s.pass == 0 && Shaped(s.c, a) && Shaped(s.c, b) && l < s.c.lanes && n <= s.Length()
    requires AgreeBelow(s.c, a, b, FilledBefore(s))
    ensures AgreeFilled(s, RunLane(s, a, l, n), RunLane(s, b, l, n), l, n)
  {
    hide AgreeFilled, AgreeBelow, Step, RunLane, FilledBefore;
    if n == 0 {
      RunLaneNone(s, a, l);
      RunLaneNone(s, b, l);
      NothingRun(s, a, b, l);
    } else {
      RunLaneFilled(s, a, b, l, n - 1);
      RunLaneNext(s, a, l, n);
      RunLaneNext(s, b, l, n);
      StepFilled(s, RunLane(s, a, l, n - 1), RunLane(s, b, l, n - 1), l, n - 1);
    }
  }

  lemma NothingRun(s: Slot, a: Memory, b: Memory, l: nat)
    requires s.Valid() && s.pass == 0 && Shaped(s.c, a) && Shaped(s.c, b) && l < s.c.lanes
    requires AgreeBelow(s.c, a, b, FilledBefore(s))
    ensures AgreeFilled(s, a, b, l, 0)
  {
    SliceStart(s);
  }

  lemma RunLaneNone(s: Slot, m: Memory, l: nat)
    requires s.Valid() && Shaped(s.c, m) && l < s.c.lanes && 0 <= s.Length()
    ensures RunLane(s, m, l, 0) == m
  {
  }

  lemma RunLaneNext(s: Slot, m: Memory, l: nat, n: nat)
    requires s.Valid() && Shaped(s.c, m) && l < s.c.lanes && 0 < n <= s.Length()
    ensures RunLane(s, m, l, n) == Step(s, RunLane(s, m, l, n - 1), l, n - 1)
  {
  }

  lemma FillSliceFilled(s: Slot, a: Memory, b: Memory)
    requires s.Valid() && s.pass == 0 && Shaped(s.c, a) && Shaped(s.c, b) && AgreeBelow(s.c, a, b, FilledBefore(s))
    ensures AgreeBelow(s.c, FillSlice(s, a), FillSlice(s, b), Start(s) + s.c.segmentSize)
  {
    hide RunLane;
    forall k | 0 <= k < s.c.lanes
      ensures forall p :: 0 <= p < Start(s) + s.c.segmentSize ==> FillSlice(s, a)[k][p] == FillSlice(s, b)[k][p]
    {
      SliceStart(s);
      RunLaneFilled(s, a, b, k, s.Length());
    }
  }

  // ------------------------------------------------------------------- the whole memory

  ghost predicate Runnable(c: Config) {
    c.Valid() && c.LaneSize() * c.lanes < W32
  }

  /** The first n slices of a pass. */
  ghost function FillSlices(g: Rounds, c: Config, pass: nat, m: Memory, n: nat): (m': Memory)
    requires Runnable(c) && Shaped(c, m) && pass < W32 && n <= 4
    ensures Shaped(c, m')
  {
    if n == 0 then m else FillSlice(Slot(g, c, pass, n - 1), FillSlices(g, c, pass, m, n - 1))
  }

  ghost function FillPasses(g: Rounds, c: Config, m: Memory, passes: nat): (m': Memory)
    requires Runnable(c) && Shaped(c, m) && passes < W32
    ensures Shaped(c, m')
  {
    if passes == 0 then m else FillSlices(g, c, passes - 1, FillPasses(g, c, m, passes - 1), 4)
  }

  lemma {:induction false} FirstPassFilled(g: Rounds, c: Config, a: Memory, b: Memory, n: nat)
    requires Runnable(c) && Shaped(c, a) && Shaped(c, b) && 0 < n <= 4 && AgreeBelow(c, a, b, 2)
    ensures AgreeBelow(c, FillSlices(g, c, 0, a, n), FillSlices(g, c, 0, b, n), n * c.segmentSize)
  {
    hide AgreeBelow, FillSlice;
    var s := Slot(g, c, 0, n - 1);
    SliceStart(s);
    if n > 1 {
      FirstPassFilled(g, c, a, b, n - 1);
    } else {
      FillNoSlices(g, c, 0, a);
      FillNoSlices(g, c, 0, b);
    }
    FillSliceFilled(s, FillSlices(g, c, 0, a, n - 1), FillSlices(g, c, 0, b, n - 1));
  }

  lemma FillNoSlices(g: Rounds, c: Config, pass: nat, m: Memory)
    requires Runnable(c) && Shaped(c, m) && pass < W32
    ensures FillSlices(g, c, pass, m, 0) == m
  {
  }

  /** The result does not depend on what the work area held, besides the first two blocks of
  each lane. */
  lemma {:induction false} GarbageIgnored(g: Rounds, c: Config, a: Memory, b: Memory, passes: nat)
    requires Runnable(c) && Shaped(c, a) && Shaped(c, b) && AgreeBelow(c, a, b, 2) && 0 < passes < W32
    ensures FillPasses(g, c, a, passes) == FillPasses(g, c, b, passes)
  {
    if passes > 1 {
      hide FillSlices;
      GarbageIgnored(g, c, a, b, passes - 1);
    } else {
      FirstPassFilled(g, c, a, b, 4);
      OnePass(g, c, a);
      OnePass(g, c, b);
      hide FillPasses, FillSlices;
      AgreeEverywhere(c, FillSlices(g, c, 0, a, 4), FillSlices(g, c, 0, b, 4));
    }
  }

  lemma OnePass(g: Rounds, c: Config, m: Memory)
    requires Runnable(c) && Shaped(c, m)
    ensures FillPasses(g, c, m, 1) == FillSlices(g, c, 0, m, 4)
  {
    hide FillSlices;
    assert FillPasses(g, c, m, 0) == m;
  }

  lemma AgreeEverywhere(c: Config, a: Memory, b: Memory)
    requires Shaped(c, a) && Shaped(c, b) && AgreeBelow(c, a, b, c.LaneSize())
    ensures a == b
  {
    forall k | 0 <= k < c.lanes ensures a[k] == b[k] {
      assert forall p :: 0 <= p < c.LaneSize() ==> a[k][p] == b[k][p];
    }
  }

  // -------------------------------------------------------------------- the flat work area

  /** `lane * lane_size + position` */
  function At(c: Config, l: nat, p: nat): nat {
    l * c.LaneSize() + p
  }

  lemma AtBound(c: Config, l: nat, p: nat)
    requires l < c.lanes && p < c.LaneSize()
    ensures At(c, l, p) < c.LaneSize() * c.lanes
  {
    MulMono(c.LaneSize(), l + 1, c.lanes);
    MulDistr(c.LaneSize(), l, 1);
  }

  lemma AtInjective(c: Config, l: nat, p: nat, l': nat, p': nat)
    requires p < c.LaneSize() && p' < c.LaneSize() && At(c, l, p) == At(c, l', p')
    ensures l == l' && p == p'
  {
    ModUnique(At(c, l, p), c.LaneSize(), l, p);
    ModUnique(At(c, l, p), c.LaneSize(), l', p');
  }

  ghost function Lanes(c: Config, flat: seq<Block>): (m: Memory)
    requires |flat| == c.LaneSize() * c.lanes
    ensures Shaped(c, m)
  {
    seq(c.lanes, l requires 0 <= l < c.lanes => Lane(c, flat, l))
  }

  ghost function Lane(c: Config, flat: seq<Block>, l: nat): (r: seq<Block>)
    requires |flat| == c.LaneSize() * c.lanes && l < c.lanes
    ensures |r| == c.LaneSize()
  {
    seq(c.LaneSize(), p requires 0 <= p < c.LaneSize() => (AtBound(c, l, p); flat[At(c, l, p)]))
  }

  lemma LanesUpdate(c: Config, flat: seq<Block>, flat': seq<Block>, l: nat, p: nat, b: Block)
    requires |flat| == c.LaneSize() * c.lanes && l < c.lanes && p < c.LaneSize()
    requires At(c, l, p) < |flat| && flat' == flat[At(c, l, p) := b]
    ensures var row: seq<Block> := Lanes(c, flat)[l][p := b]; Lanes(c, flat') == Lanes(c, flat)[l := row]
  {
    hide At;
    var row: seq<Block> := Lanes(c, flat)[l][p := b];
    forall k | 0 <= k < c.lanes ensures Lane(c, flat', k) == if k == l then row else Lane(c, flat, k) {
      forall q | 0 <= q < c.LaneSize()
        ensures Lane(c, flat', k)[q] == if k == l then row[q] else Lane(c, flat, k)[q]
      {
        AtBound(c, k, q);
        if At(c, k, q) == At(c, l, p) {
          AtInjective(c, k, q, l, p);
        }
      }
    }
  }

  /** One turn of the block loop, in place. */
  method FillBlock(s: Slot, blocks: array<Block>, segment: nat, n: nat, indexSeed: u64)
    requires s.Valid() && blocks.Length == s.c.LaneSize() * s.c.lanes && segment < s.c.lanes && n < s.Length()
    requires CanStep(s, Lanes(s.c, blocks[..]), segment, n)
    requires var block := PassOffset(s.pass, s.slice) + n;
      0 <= Previous(s.c, s.slice, block) < s.c.LaneSize()
      && indexSeed == IndexSeed(s, segment, block, Lanes(s.c, blocks[..])[segment][Previous(s.c, s.slice, block)])
    modifies blocks
    ensures Lanes(s.c, blocks[..]) == Step(s, old(Lanes(s.c, blocks[..])), segment, n)
  {
    hide WindowSize, ReferencePosition, IndexSeed, At, XorBlock, Start;
    var block := PassOffset(s.pass, s.slice) + n;
    Positions(s, block);
    var lane := ReferenceLane(s.c, s.pass, s.slice, segment, indexSeed);
    ReferenceIsConstructed(s.c, s.pass, s.slice, lane == segment, block, indexSeed);
    var ref := ReferencePosition(s.c, s.pass, s.slice, lane == segment, block, indexSeed);
    var cur, prev := Current(s.c, s.slice, block), Previous(s.c, s.slice, block);
    AtBound(s.c, segment, cur);
    AtBound(s.c, segment, prev);
    AtBound(s.c, lane, ref);
    ghost var flat := blocks[..];
    var tmp := XorBlock(blocks[At(s.c, segment, prev)], blocks[At(s.c, lane, ref)]);
    var next := if s.pass == 0 then tmp else XorBlock(blocks[At(s.c, segment, cur)], tmp);
    tmp := s.g(tmp);
    next := XorBlock(next, tmp);
    assert next == NextBlock(s, Lanes(s.c, flat), segment, n);
    blocks[At(s.c, segment, cur)] := next;
    LanesUpdate(s.c, flat, blocks[..], segment, cur, next);
  }

  /** How many steps each lane has taken: `done` segments are over, and the next is at n. */
  function Progress(s: Slot, done: nat, n: nat): nat -> nat
    requires n <= s.Length()
  {
    l => if l < done then s.Length() else if l == done then n else 0
  }

  /** The refresh of the deterministic indices block. */
  method RefreshIndices(s: Slot, segment: nat, ctr: nat) returns (indexBlock: Block)
    requires s.Valid() && segment < s.c.lanes && ctr < W32
    ensures indexBlock == IndexBlock(s.g, s.c, s.pass, s.slice, segment, ctr)
  {
    hide XorBlock;
    indexBlock := [s.pass as u64, segment as u64, s.slice as u64, (s.c.LaneSize() * s.c.lanes) as u64,
                   s.c.passes as u64, s.c.algorithm.Code(), ctr as u64] + seq(121, _ => 0);
    var tmp := indexBlock;
    indexBlock := s.g(indexBlock);
    indexBlock := XorBlock(indexBlock, tmp);
    tmp := indexBlock;
    indexBlock := s.g(indexBlock);
    indexBlock := XorBlock(indexBlock, tmp);
  }

  /** The indices block and its counter, before block number `block`. */
  ghost predicate IndicesReady(s: Slot, segment: nat, block: nat, constantTime: bool, indexBlock: Block, indexCtr: nat)
    requires s.Valid() && segment < s.c.lanes && block <= s.c.segmentSize
  {
    var started := constantTime && block > PassOffset(s.pass, s.slice);
    indexCtr == (if started then (block - 1) / 128 + 2 else 1)
    && (started ==> indexBlock == IndexBlock(s.g, s.c, s.pass, s.slice, segment, (block - 1) / 128 + 1))
  }

  /** The deterministic part of the block loop. */
  method Indices(s: Slot, segment: nat, block: nat, indexBlock: Block, indexCtr: nat)
    returns (indexBlock': Block, indexCtr': nat)
    requires s.Valid() && segment < s.c.lanes && PassOffset(s.pass, s.slice) <= block < s.c.segmentSize
    requires IndicesReady(s, segment, block, true, indexBlock, indexCtr)
    ensures IndicesReady(s, segment, block + 1, true, indexBlock', indexCtr')
    ensures indexBlock' == IndexBlock(s.g, s.c, s.pass, s.slice, segment, block / 128 + 1)
  {
    hide IndexBlock;
    indexBlock', indexCtr' := indexBlock, indexCtr;
    if block == PassOffset(s.pass, s.slice) || block % 128 == 0 {
      indexBlock' := RefreshIndices(s, segment, indexCtr);
      indexCtr' := indexCtr + 1;
    }
  }

  /** The segment loop body: every block of one segment. */
  method FillSegment(s: Slot, blocks: array<Block>, segment: nat, constantTime: bool, ghost m0: Memory)
    requires s.Valid() && blocks.Length == s.c.LaneSize() * s.c.lanes && segment < s.c.lanes && Shaped(s.c, m0)
    requires constantTime == ConstantTime(s.c.algorithm, s.pass, s.slice)
    requires EachAlone(s, m0, Lanes(s.c, blocks[..]), Progress(s, segment, 0))
    modifies blocks
    ensures EachAlone(s, m0, Lanes(s.c, blocks[..]), Progress(s, segment + 1, 0))
  {
    hide EachAlone, Step, IndexBlock, At, Lanes, Start;
    var offset := PassOffset(s.pass, s.slice);
    var indexBlock: Block := seq(128, _ => 0);
    var indexCtr := 1;
    for block := offset to s.c.segmentSize
      invariant EachAlone(s, m0, Lanes(s.c, blocks[..]), Progress(s, segment, block - offset))
      invariant constantTime ==> IndicesReady(s, segment, block, constantTime, indexBlock, indexCtr)
    {
      hide IndicesReady, Previous, Progress;
      Positions(s, block);
      AtBound(s.c, segment, Previous(s.c, s.slice, block));
      LaneAt(s.c, blocks[..], segment, Previous(s.c, s.slice, block));
      var seed: u64;
      if constantTime {
        indexBlock, indexCtr := Indices(s, segment, block, indexBlock, indexCtr);
        seed := indexBlock[block % 128];
      } else {
        seed := blocks[At(s.c, segment, Previous(s.c, s.slice, block))][0];
      }
      NextAlone(s, m0, Lanes(s.c, blocks[..]), segment, block - offset);
      FillBlock(s, blocks, segment, block - offset, seed);
    }
    SegmentOver(s, m0, Lanes(s.c, blocks[..]), segment);
  }

  lemma LaneAt(c: Config, flat: seq<Block>, l: nat, p: nat)
    requires |flat| == c.LaneSize() * c.lanes && l < c.lanes && p < c.LaneSize()
    ensures At(c, l, p) < |flat| && Lanes(c, flat)[l][p] == flat[At(c, l, p)]
  {
    AtBound(c, l, p);
  }

  lemma NextAlone(s: Slot, m0: Memory, m: Memory, l: nat, n: nat)
    requires s.Valid() && Shaped(s.c, m0) && l < s.c.lanes && n < s.Length()
    requires EachAlone(s, m0, m, Progress(s, l, n))
    ensures CanStep(s, m, l, n) && EachAlone(s, m0, Step(s, m, l, n), Progress(s, l, n + 1))
  {
    hide Step, RunLane;
    StepAlone(s, m0, m, Progress(s, l, n), l);
  }

  lemma SegmentOver(s: Slot, m0: Memory, m: Memory, l: nat)
    requires s.Valid() && Shaped(s.c, m0) && 0 <= s.Length() && EachAlone(s, m0, m, Progress(s, l, s.Length()))
    ensures EachAlone(s, m0, m, Progress(s, l + 1, 0))
  {
    hide RunLane;
  }

  /** One slice: the segments one after the other. */
  method FillSliceInPlace(s: Slot, blocks: array<Block>, constantTime: bool)
    requires s.Valid() && blocks.Length == s.c.LaneSize() * s.c.lanes
    requires constantTime == ConstantTime(s.c.algorithm, s.pass, s.slice)
    modifies blocks
    ensures Lanes(s.c, blocks[..]) == FillSlice(s, old(Lanes(s.c, blocks[..])))
  {
    hide Lanes, EachAlone;
    ghost var m0 := Lanes(s.c, blocks[..]);
    SliceBegins(s, m0);
    for segment := 0 to s.c.lanes
      invariant EachAlone(s, m0, Lanes(s.c, blocks[..]), Progress(s, segment, 0))
    {
      FillSegment(s, blocks, segment, constantTime, m0);
    }
    SliceOver(s, m0, Lanes(s.c, blocks[..]));
  }

  lemma SliceBegins(s: Slot, m0: Memory)
    requires s.Valid() && Shaped(s.c, m0)
    ensures EachAlone(s, m0, m0, Progress(s, 0, 0))
  {
  }

  lemma SliceOver(s: Slot, m0: Memory, m: Memory)
    requires s.Valid() && Shaped(s.c, m0) && EachAlone(s, m0, m, Progress(s, s.c.lanes, 0))
    ensures m == FillSlice(s, m0)
  {
    hide RunLane;
    forall l | 0 <= l < s.c.lanes ensures m[l] == FillSlice(s, m0)[l] {
      assert Progress(s, s.c.lanes, 0)(l) == s.Length();
    }
  }

  /** "Fill (and re-fill) the rest of the blocks": passes, slices, segments, blocks. */
  method FillMemory(g: Rounds, c: Config, blocks: array<Block>)
    requires Runnable(c) && blocks.Length == c.LaneSize() * c.lanes
    modifies blocks
    ensures Lanes(c, blocks[..]) == FillPasses(g, c, old(Lanes(c, blocks[..])), c.passes)
  {
    hide Lanes, FillSlice, FillSlices, FillPasses;
    ghost var m0 := Lanes(c, blocks[..]);
    var constantTime := c.algorithm != Argon2d;
    FillNoPasses(g, c, m0);
    for pass := 0 to c.passes
      invariant Lanes(c, blocks[..]) == FillPasses(g, c, m0, pass)
      invariant constantTime == (c.algorithm != Argon2d && !(c.algorithm == Argon2id && pass > 0))
    {
      ghost var m := Lanes(c, blocks[..]);
      FillNoSlices(g, c, pass, m);
      for slice := 0 to 4
        invariant Lanes(c, blocks[..]) == FillSlices(g, c, pass, m, slice)
        invariant constantTime == (c.algorithm != Argon2d && !(c.algorithm == Argon2id && (pass > 0 || slice > 2)))
      {
        if slice == 2 && c.algorithm == Argon2id {
          constantTime := false;
        }
        FillSliceInPlace(Slot(g, c, pass, slice), blocks, constantTime);
        FillNextSlice(g, c, pass, m, slice);
      }
      FillNextPass(g, c, m0, pass);
    }
  }

  lemma FillNoPasses(g: Rounds, c: Config, m: Memory)
    requires Runnable(c) && Shaped(c, m)
    ensures FillPasses(g, c, m, 0) == m
  {
  }

  lemma FillNextSlice(g: Rounds, c: Config, pass: nat, m: Memory, slice: nat)
    requires Runnable(c) && Shaped(c, m) && pass < W32 && slice < 4
    ensures FillSlices(g, c, pass, m, slice + 1)
            == FillSlice(Slot(g, c, pass, slice), FillSlices(g, c, pass, m, slice))
  {
    hide FillSlice;
  }

  lemma FillNextPass(g: Rounds, c: Config, m: Memory, pass: nat)
    requires Runnable(c) && Shaped(c, m) && pass + 1 < W32
    ensures FillPasses(g, c, m, pass + 1) == FillSlices(g, c, pass, FillPasses(g, c, m, pass), 4)
  {
    hide FillSlices;
  }

  /** The XOR of the last blocks of the first n lanes. */
  ghost function XorLast(c: Config, m: Memory, n: nat): Block
    requires Shaped(c, m) && c.Valid() && 0 < n <= c.lanes
  {
    if n == 1 then m[0][c.LaneSize() - 1] else XorBlock(m[n - 1][c.LaneSize() - 1], XorLast(c, m, n - 1))
  }

  /** "XOR last blocks of each lane", in place. */
  method XorLastBlocks(c: Config, blocks: array<Block>) returns (last: Block)
    requires Runnable(c) && blocks.Length == c.LaneSize() * c.lanes
    modifies blocks
    ensures last == XorLast(c, old(Lanes(c, blocks[..])), c.lanes)
  {
    hide Lanes, XorBlock, At;
    ghost var m := Lanes(c, blocks[..]);
    var p := c.LaneSize() - 1;
    forall l | 0 <= l < c.lanes ensures (AtBound(c, l, p); blocks[At(c, l, p)] == m[l][p]) {
      LaneAt(c, blocks[..], l, p);
    }
    AtBound(c, 0, p);
    assert XorLast(c, m, 1) == m[0][p];
    for lane := 1 to c.lanes
      invariant forall l :: lane <= l < c.lanes ==>
        (AtBound(c, l, p); blocks[At(c, l, p)] == m[l][p])
      invariant At(c, lane - 1, p) < blocks.Length && blocks[At(c, lane - 1, p)] == XorLast(c, m, lane)
    {
      AtBound(c, lane, p);
      ghost var flat := blocks[..];
      blocks[At(c, lane, p)] := XorBlock(blocks[At(c, lane, p)], blocks[At(c, lane - 1, p)]);
      forall l | lane + 1 <= l < c.lanes ensures (AtBound(c, l, p); blocks[At(c, l, p)] == m[l][p]) {
        AtBound(c, l, p);
        if At(c, l, p) == At(c, lane, p) {
          AtInjective(c, l, p, lane, p);
        }
      }
    }
    AtBound(c, c.lanes - 1, p);
    last := blocks[At(c, c.lanes - 1, p)];
  }

  /** Memory as Argon2 defines it to begin with; the blocks not filled yet are irrelevant. */
  ghost function Initial(c: Config, first: (nat, nat) -> Block): (m: Memory)
    requires c.Valid()
    ensures Shaped(c, m)
  {
    seq(c.lanes, l requires 0 <= l < c.lanes => InitialLane(c, first, l))
  }

  ghost function InitialLane(c: Config, first: (nat, nat) -> Block, l: nat): (r: seq<Block>)
    requires c.Valid()
    ensures |r| == c.LaneSize() && r[0] == first(l, 0) && r[1] == first(l, 1)
  {
    [first(l, 0), first(l, 1)] + seq(c.LaneSize() - 2, _ => seq(128, _ => 0))
  }

  /** The memory-hard part of `crypto_argon2`: whatever the work area held, the block that gets
  hashed at the end is the one Argon2 defines. `first` stands for the hash that fills blocks 0
  and 1 of each lane. */
  method FinalBlock(g: Rounds, c: Config, first: (nat, nat) -> Block, blocks: array<Block>) returns (last: Block)
    requires Runnable(c) && 0 < c.passes && blocks.Length == c.LaneSize() * c.lanes
    modifies blocks
    ensures last == XorLast(c, FillPasses(g, c, Initial(c, first), c.passes), c.lanes)
  {
    hide Lanes, FillPasses, XorLast, Initial, AgreeBelow;
    FirstBlocks(c, first, blocks);
    GarbageIgnored(g, c, Lanes(c, blocks[..]), Initial(c, first), c.passes);
    FillMemory(g, c, blocks);
    last := XorLastBlocks(c, blocks);
  }

  /** "fill first 2 blocks of each lane" */
  method FirstBlocks(c: Config, first: (nat, nat) -> Block, blocks: array<Block>)
    requires Runnable(c) && blocks.Length == c.LaneSize() * c.lanes
    modifies blocks
    ensures AgreeBelow(c, Lanes(c, blocks[..]), Initial(c, first), 2)
  {
    hide Lanes, At;
    for l := 0 to c.lanes
      invariant forall k :: 0 <= k < l ==>
        Lanes(c, blocks[..])[k][0] == first(k, 0) && Lanes(c, blocks[..])[k][1] == first(k, 1)
    {
      AtBound(c, l, 0);
      AtBound(c, l, 1);
      ghost var flat := blocks[..];
      blocks[At(c, l, 0)] := first(l, 0);
      LanesUpdate(c, flat, blocks[..], l, 0, first(l, 0));
      flat := blocks[..];
      blocks[At(c, l, 1)] := first(l, 1);
      LanesUpdate(c, flat, blocks[..], l, 1, first(l, 1));
    }
  }

  // ---------------------------------------------------------------- the variable-length hash

  /** A hash of any size up to 64 bytes. */
  type SizedHash = (nat, seq<u8>) -> seq<u8>

  ghost predicate IsSized(h: SizedHash) {
    forall n, x :: n <= 64 ==> |h(n, x)| == n
  }

  /** BLAKE2b is such a hash. */
  lemma Blake2bIsSized(f: Blake2b.Compression)
    ensures IsSized((n: nat, x: seq<u8>) => if n < 0x1_0000_0000_0000_0000 then Blake2b.Hash(f, n as u64, [], x) else [])
  {
    hide Blake2b.Chain, Blake2b.AllFeeds, Blake2b.InitialState;
  }

  /** V_i of section 3.3 of RFC 9106: a chain of 64-byte hashes. */
  ghost function ChainLink(h: SizedHash, size: u32, input: seq<u8>, i: nat): seq<u8>
    requires i > 0
  {
    if i == 1 then h(64, Store32(size) + input) else h(64, ChainLink(h, size, input, i - 1))
  }

  /** The first halves of V_1 to V_n. */
  ghost function FirstHalves(h: SizedHash, size: u32, input: seq<u8>, n: nat): (s: seq<u8>)
    requires IsSized(h)
    ensures |s| == 32 * n
  {
    if n == 0 then []
    else FirstHalves(h, size, input, n - 1) + (LinkSize(h, size, input, n); ChainLink(h, size, input, n)[..32])
  }

  lemma LinkSize(h: SizedHash, size: u32, input: seq<u8>, i: nat)
    requires IsSized(h) && i > 0
    ensures |ChainLink(h, size, input, i)| == 64
  {
  }

  /** H' */
  ghost function LongHash(h: SizedHash, size: u32, input: seq<u8>): (s: seq<u8>)
    requires IsSized(h)
  {
    if size <= 64 then h(size as nat, Store32(size) + input)
    else
      var r := (size as nat + 31) / 32 - 2;
      FirstHalves(h, size, input, r) + h(size as nat - 32 * r, ChainLink(h, size, input, r))
  }

  /** Replaces the bytes from `at` on. */
  method Overwrite(digest: array<u8>, at: nat, bytes: seq<u8>)
    requires at + |bytes| <= digest.Length
    modifies digest
    ensures digest[..at] == old(digest[..at]) && digest[at..at + |bytes|] == bytes
    ensures digest[at + |bytes|..] == old(digest[at + |bytes|..])
  {
    for i := 0 to |bytes|
      invariant digest[..at] == old(digest[..at]) && digest[at..at + i] == bytes[..i]
      invariant digest[at + |bytes|..] == old(digest[at + |bytes|..])
    {
      digest[at + i] := bytes[i];
      assert digest[at..at + i + 1] == digest[at..at + i] + [bytes[i]];
    }
  }

  /** `extended_hash` */
  method ExtendedHash(h: SizedHash, digest: array<u8>, input: seq<u8>)
    requires IsSized(h) && digest.Length < W32
    modifies digest
    ensures digest[..] == LongHash(h, digest.Length as u32, input)
  {
    hide IsSized, Store32, LE, ChainLink, FirstHalves;
    var size := digest.Length as u32;
    var n := if size < 64 then size as nat else 64;
    HashSize(h, n, Store32(size) + input);
    Overwrite(digest, 0, h(n, Store32(size) + input));
    assert digest[0..n] == digest[..n];
    if size > 64 {
      ExtendDigest(h, digest, input);
    }
  }

  /** Each hash overwrites the second half of the one before it. */
  method ExtendDigest(h: SizedHash, digest: array<u8>, input: seq<u8>)
    requires IsSized(h) && 64 < digest.Length < W32
    requires digest[..64] == h(64, Store32(digest.Length as u32) + input)
    modifies digest
    ensures digest[..] == LongHash(h, digest.Length as u32, input)
  {
    hide IsSized, Store32, ChainLink, FirstHalves, LongHash;
    var size := digest.Length as u32;
    var r := (size as nat + 31) / 32 - 2;
    var i, from, out := 1, 0, 32;
    LastSize(size as nat, r);
    FirstLink(h, size, input);
    assert digest[0..64] == digest[..64];
    while i < r
      invariant 1 <= i <= r && from == 32 * (i - 1) && out == 32 * i
      invariant digest[..from] == FirstHalves(h, size, input, i - 1)
      invariant digest[from..from + 64] == ChainLink(h, size, input, i)
    {
      NextLink(h, size, input, i);
      HashHalf(h, digest, from, 64);
      i := i + 1;
      from := from + 32;
      out := out + 32;
    }
    NextLink(h, size, input, r);
    HashHalf(h, digest, from, size as nat - 32 * r);
    assert digest[..] == digest[..out] + digest[out..];
    LongHashIs(h, size, input, r);
  }

  /** Hashes the 64 bytes from `from` on into the place of their second half. */
  method HashHalf(h: SizedHash, digest: array<u8>, from: nat, n: nat)
    requires IsSized(h) && n <= 64 && from + 64 <= digest.Length && from + 32 + n <= digest.Length
    modifies digest
    ensures digest[..from + 32] == old(digest[..from]) + old(digest[from..from + 64])[..32]
    ensures digest[from + 32..from + 32 + n] == h(n, old(digest[from..from + 64]))
  {
    hide *;
    HashSize(h, n, digest[from..from + 64]);
    HalfKept(digest[..from + 32], digest[..from], digest[from..from + 64]);
    Overwrite(digest, from + 32, h(n, digest[from..from + 64]));
  }

  lemma LastSize(size: nat, r: int)
    requires size > 64 && r == (size + 31) / 32 - 2
    ensures r >= 1 && 32 < size - 32 * r <= 64
  {
  }

  lemma LongHashIs(h: SizedHash, size: u32, input: seq<u8>, r: nat)
    requires IsSized(h) && size > 64 && r == (size as nat + 31) / 32 - 2
    ensures r >= 1 && size as nat >= 32 * r && LongHash(h, size, input)
      == FirstHalves(h, size, input, r) + h(size as nat - 32 * r, ChainLink(h, size, input, r))
  {
    hide IsSized, FirstHalves, ChainLink;
  }

  lemma HalfKept(all: seq<u8>, front: seq<u8>, link: seq<u8>)
    requires |link| == 64 && |all| == |front| + 32 && all[..|front|] == front && all[|front|..] == link[..32]
    ensures all == front + link[..32]
  {
  }

  lemma HashSize(h: SizedHash, n: nat, x: seq<u8>)
    requires IsSized(h) && n <= 64
    ensures |h(n, x)| == n
  {
  }

  lemma FirstLink(h: SizedHash, size: u32, input: seq<u8>)
    requires IsSized(h)
    ensures ChainLink(h, size, input, 1) == h(64, Store32(size) + input) && FirstHalves(h, size, input, 0) == []
  {
  }

  lemma NextLink(h: SizedHash, size: u32, input: seq<u8>, i: nat)
    requires IsSized(h) && i > 0
    ensures ChainLink(h, size, input, i + 1) == h(64, ChainLink(h, size, input, i)) && |ChainLink(h, size, input, i)| == 64
    ensures FirstHalves(h, size, input, i) == FirstHalves(h, size, input, i - 1) + ChainLink(h, size, input, i)[..32]
  {
    LinkSize(h, size, input, i);
  }
}
