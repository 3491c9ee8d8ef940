/**
 * `MemoryPoolAllocator` (allocators.h): blocks are cut one after the other from the newest of a list of chunks.
 * Addresses are numbers; what the base allocator answers is a parameter. Ghost lists say which blocks have been
 * handed out: in every chunk they fill the used part without gap or overlap.
 */
module MemoryPool {
  import opened Chars

  const HEADER: nat := 24  // sizeof(ChunkHeader), already a multiple of 8
  /** No object is larger than this, so that no sum of an offset and a size wraps around. */
  const MAX_OBJECT: nat := 0x7FFF_FFFF_FFFF_FF00

  /** `RAPIDJSON_ALIGN` in 64 bits. */
  function Align(x: nat): nat {
    (x + 7) % 0x1_0000_0000_0000_0000 / 8 * 8
  }

  /** Up to the last seven sizes the 64-bit mask rounds up to a multiple of eight; those seven wrap to zero. */
  lemma AlignExact(x: nat)
    requires x < 0x1_0000_0000_0000_0000
    ensures Align(x) % 8 == 0
    ensures x <= Align(x) < x + 8 <==> x <= 0xFFFF_FFFF_FFFF_FFF8
    ensures x > 0xFFFF_FFFF_FFFF_FFF8 ==> Align(x) == 0
  {
  }

  lemma AlignTwice(x: nat)
    requires x <= MAX_OBJECT - 16
    ensures x <= Align(x) <= MAX_OBJECT - 16 && Align(x) % 8 == 0
    ensures Align(Align(x)) == Align(x) && (x == 0 <==> Align(x) == 0)
  {
  }

  datatype Chunk = Chunk(base: nat, capacity: nat, size: nat)

  function Data(c: Chunk): nat { c.base + HEADER }
  function End(c: Chunk): nat { c.base + HEADER + c.capacity }

  function Sum(lens: seq<nat>): nat {
    if lens == [] then 0 else Sum(lens[..|lens| - 1]) + lens[|lens| - 1]
  }

  lemma SumLast(lens: seq<nat>, n: nat)
    ensures Sum(lens + [n]) == Sum(lens) + n
  {
    assert (lens + [n])[..|lens|] == lens;
  }

  lemma {:induction false} SumPrefix(lens: seq<nat>, i: nat)
    requires i < |lens|
    ensures Sum(lens[..i]) + lens[i] == Sum(lens[..i + 1]) <= Sum(lens)
    decreases |lens| - i
  {
    assert lens[..i + 1][..i] == lens[..i];
    if i + 1 < |lens| {
      SumPrefix(lens, i + 1);
    } else {
      assert lens[..i + 1] == lens;
    }
  }

  lemma {:induction false} SumOrder(lens: seq<nat>, i: nat, j: nat)
    requires i < j < |lens|
    ensures Sum(lens[..i]) + lens[i] <= Sum(lens[..j])
    decreases j - i
  {
    SumPrefix(lens, i);
    if i + 1 < j {
      SumPrefix(lens, i + 1);
      SumOrder(lens, i + 1, j);
    }
  }

  lemma {:induction false} SumAligned(lens: seq<nat>, i: nat)
    requires i <= |lens| && forall k :: 0 <= k < |lens| ==> lens[k] % 8 == 0
    ensures Sum(lens[..i]) % 8 == 0
  {
    if i > 0 {
      SumAligned(lens, i - 1);
      assert lens[..i][..i - 1] == lens[..i - 1];
    }
  }

  /** A chunk and the lengths of the blocks cut from it, in order. */
  predicate Filled(c: Chunk, lens: seq<nat>) {
    && c.base % 8 == 0 && c.capacity <= MAX_OBJECT
    && Sum(lens) == c.size <= c.capacity
    && forall k :: 0 <= k < |lens| ==> lens[k] > 0 && lens[k] % 8 == 0
  }

  predicate ApartFrom(c: Chunk, d: Chunk) {
    End(c) <= d.base || End(d) <= c.base
  }

  /** All chunks are filled in this way and lie apart in memory. */
  predicate Sound(chunks: seq<Chunk>, blocks: seq<seq<nat>>) {
    && |blocks| == |chunks|
    && (forall c :: 0 <= c < |chunks| ==> Filled(chunks[c], blocks[c]))
    && (forall c, d :: 0 <= c < d < |chunks| ==> ApartFrom(chunks[c], chunks[d]))
  }

  /** Where block `i` of chunk `c` starts. */
  function Address(chunks: seq<Chunk>, blocks: seq<seq<nat>>, c: nat, i: nat): nat
    requires |blocks| == |chunks| && c < |chunks| && i < |blocks[c]|
  {
    Data(chunks[c]) + Sum(blocks[c][..i])
  }

  /** Every block is aligned and lies within the capacity of its chunk. */
  lemma BlockInside(chunks: seq<Chunk>, blocks: seq<seq<nat>>, c: nat, i: nat)
    requires Sound(chunks, blocks) && c < |chunks| && i < |blocks[c]|
    ensures var a, n := Address(chunks, blocks, c, i), blocks[c][i];
            && a % 8 == 0 && n > 0
            && Data(chunks[c]) <= a && a + n <= Data(chunks[c]) + chunks[c].size <= End(chunks[c])
  {
    assert Filled(chunks[c], blocks[c]);
    SumPrefix(blocks[c], i);
    SumAligned(blocks[c], i);
  }

  /** Two different blocks never overlap, in one chunk or in two. */
  lemma BlocksDisjoint(chunks: seq<Chunk>, blocks: seq<seq<nat>>, c: nat, i: nat, d: nat, j: nat)
    requires Sound(chunks, blocks) && c < |chunks| && d < |chunks| && i < |blocks[c]| && j < |blocks[d]|
    requires c != d || i != j
    ensures var a, b := Address(chunks, blocks, c, i), Address(chunks, blocks, d, j);
            a + blocks[c][i] <= b || b + blocks[d][j] <= a
  {
    BlockInside(chunks, blocks, c, i);
    BlockInside(chunks, blocks, d, j);
    if c == d {
      if i < j { SumOrder(blocks[c], i, j); } else { SumOrder(blocks[c], j, i); }
    } else if c < d {
      assert ApartFrom(chunks[c], chunks[d]);
    } else {
      assert ApartFrom(chunks[d], chunks[c]);
    }
  }

  function At(mem: map<nat, Byte>, a: nat): Byte {
    if a in mem then mem[a] else 0
  }

  /** Where the octet now at `a` was before `n` octets were copied. */
  function Origin(to: nat, source: nat, n: nat, a: nat): nat {
    if to <= a < to + n then source + (a - to) else a
  }

  /** `n` octets have been copied, and nothing else has changed. */
  ghost predicate Copied(m0: map<nat, Byte>, m1: map<nat, Byte>, to: nat, source: nat, n: nat) {
    forall a: nat :: At(m1, a) == At(m0, Origin(to, source, n, a))
  }

  /** The `n` octets at `to` are those that were at `source`. */
  ghost predicate SameContents(m0: map<nat, Byte>, m1: map<nat, Byte>, to: nat, source: nat, n: nat) {
    forall a: nat :: to <= a < to + n ==> At(m1, a) == At(m0, Origin(to, source, n, a))
  }

  /** Memory differs at most in the `n` octets at `to`. */
  ghost predicate SameElsewhere(m0: map<nat, Byte>, m1: map<nat, Byte>, to: nat, n: nat) {
    forall a: nat :: a < to || a >= to + n ==> At(m1, a) == At(m0, a)
  }

  lemma SameLess(m0: map<nat, Byte>, m1: map<nat, Byte>, to: nat, source: nat, n: nat, m: nat, e: nat)
    requires SameContents(m0, m1, to, source, n) && SameElsewhere(m0, m1, to, n) && m <= n <= e
    ensures SameContents(m0, m1, to, source, m) && SameElsewhere(m0, m1, to, e)
  {
    forall a: nat | to <= a < to + m ensures At(m1, a) == At(m0, Origin(to, source, m, a)) {
      assert At(m1, a) == At(m0, Origin(to, source, n, a));
    }
  }

  lemma SameMemory(m0: map<nat, Byte>, p: nat, n: nat, e: nat)
    ensures SameContents(m0, m0, p, p, n) && SameElsewhere(m0, m0, p, e)
  {
  }

  lemma CopyStep(m0: map<nat, Byte>, m: map<nat, Byte>, to: nat, source: nat, k: nat)
    requires Copied(m0, m, to, source, k) && (source + k < to || to <= source)
    ensures Copied(m0, m[to + k := At(m, source + k)], to, source, k + 1)
  {
    assert At(m, source + k) == At(m0, source + k);
    var m1: map<nat, Byte> := m[to + k := At(m, source + k)];
    forall a: nat ensures At(m1, a) == At(m0, Origin(to, source, k + 1, a)) {
      assert At(m, a) == At(m0, Origin(to, source, k, a));
    }
  }

  function TotalSize(chunks: seq<Chunk>): nat {
    if chunks == [] then 0 else chunks[0].size + TotalSize(chunks[1..])
  }

  function TotalCapacity(chunks: seq<Chunk>): nat {
    if chunks == [] then 0 else chunks[0].capacity + TotalCapacity(chunks[1..])
  }

  function TotalLength(blocks: seq<seq<nat>>): nat {
    if blocks == [] then 0 else Sum(blocks[0]) + TotalLength(blocks[1..])
  }

  /** What is in use is exactly what has been handed out, and never more than there is. */
  lemma {:induction false} UsedIsHandedOut(chunks: seq<Chunk>, blocks: seq<seq<nat>>)
    requires Sound(chunks, blocks)
    ensures TotalSize(chunks) == TotalLength(blocks) <= TotalCapacity(chunks)
  {
    if chunks != [] {
      SoundTail(chunks, blocks);
      UsedIsHandedOut(chunks[1..], blocks[1..]);
    }
  }

  lemma SoundTail(chunks: seq<Chunk>, blocks: seq<seq<nat>>)
    requires Sound(chunks, blocks) && chunks != []
    ensures Sound(chunks[1..], blocks[1..]) && Filled(chunks[0], blocks[0])
  {
    hide Filled, ApartFrom;
    forall c, d | 0 <= c < d < |chunks| - 1 ensures ApartFrom(chunks[1..][c], chunks[1..][d]) {
      assert ApartFrom(chunks[c + 1], chunks[d + 1]);
    }
  }

  /** Block `f` of chunk `e` is still at its address, and no shorter; new chunks come before the old ones. */
  predicate There(chunks0: seq<Chunk>, chunks1: seq<Chunk>, blocks0: seq<seq<nat>>, blocks1: seq<seq<nat>>, e: nat, f: nat)
    requires |blocks0| == |chunks0| <= |chunks1| == |blocks1| && e < |chunks0| && f < |blocks0[e]|
  {
    var e1 := e + (|chunks1| - |chunks0|);
    && f < |blocks1[e1]| && blocks0[e][f] <= blocks1[e1][f]
    && Address(chunks1, blocks1, e1, f) == Address(chunks0, blocks0, e, f)
  }

  predicate AllThere(chunks0: seq<Chunk>, chunks1: seq<Chunk>, blocks0: seq<seq<nat>>, blocks1: seq<seq<nat>>) {
    && |blocks0| == |chunks0| <= |chunks1| == |blocks1|
    && forall e: nat, f: nat :: e < |chunks0| && f < |blocks0[e]| ==> There(chunks0, chunks1, blocks0, blocks1, e, f)
  }

  lemma SameThere(chunks: seq<Chunk>, blocks: seq<seq<nat>>)
    requires |blocks| == |chunks|
    ensures AllThere(chunks, chunks, blocks, blocks)
  {
  }

  /** The old lengths with one more, or with the last of them grown. */
  predicate Extends(lens0: seq<nat>, lens1: seq<nat>) {
    |lens0| <= |lens1| && forall f :: 0 <= f < |lens0| ==> lens1[..f] == lens0[..f] && lens0[f] <= lens1[f]
  }

  lemma AllThereThen(chunks0: seq<Chunk>, chunks1: seq<Chunk>, chunks2: seq<Chunk>,
                     blocks0: seq<seq<nat>>, blocks1: seq<seq<nat>>, blocks2: seq<seq<nat>>)
    requires AllThere(chunks0, chunks1, blocks0, blocks1) && AllThere(chunks1, chunks2, blocks1, blocks2)
    ensures AllThere(chunks0, chunks2, blocks0, blocks2)
  {
    hide Address;
    forall e: nat, f: nat | e < |chunks0| && f < |blocks0[e]| ensures There(chunks0, chunks2, blocks0, blocks2, e, f) {
      assert There(chunks0, chunks1, blocks0, blocks1, e, f);
      assert There(chunks1, chunks2, blocks1, blocks2, e + (|chunks1| - |chunks0|), f);
    }
  }

  /** Writing into one block leaves the contents of every other block alone. */
  lemma OthersKeepContents(chunks: seq<Chunk>, blocks: seq<seq<nat>>, m0: map<nat, Byte>, m1: map<nat, Byte>,
                           d: nat, j: nat, n: nat, c: nat, i: nat)
    requires Sound(chunks, blocks) && c < |chunks| && d < |chunks| && i < |blocks[c]| && j < |blocks[d]|
                && (c != d || i != j)
    requires SameElsewhere(m0, m1, Address(chunks, blocks, d, j), n) && n <= blocks[d][j]
    ensures var a := Address(chunks, blocks, c, i); SameContents(m0, m1, a, a, blocks[c][i])
  {
    BlocksDisjoint(chunks, blocks, c, i, d, j);
    hide Address, At;
    var a := Address(chunks, blocks, c, i);
    forall x: nat | a <= x < a + blocks[c][i] ensures At(m1, x) == At(m0, Origin(a, a, blocks[c][i], x)) {
    }
  }

  class MemoryPoolAllocator {
    /** The list of chunks, newest first. */
    var chunks: seq<Chunk>
    const chunkCapacity: nat
    /** A chunk at the end of the list may lie in a buffer of the caller, which `Clear` keeps. */
    const userBuffer: bool
    var mem: map<nat, Byte>
    ghost var blocks: seq<seq<nat>>

    ghost predicate Valid()
      reads this
    {
      && Sound(chunks, blocks)
      && chunkCapacity <= MAX_OBJECT
      && (userBuffer ==> chunks != [])
    }

    constructor (chunkSize: nat)
      requires chunkSize <= MAX_OBJECT
      ensures Valid() && chunks == [] && blocks == [] && chunkCapacity == chunkSize && !userBuffer
    {
      chunks, blocks, mem := [], [], map[];
      chunkCapacity, userBuffer := chunkSize, false;
    }

    /** With a buffer of the caller as the first chunk. */
    constructor WithBuffer(buffer: nat, size: nat, chunkSize: nat)
      requires HEADER < size <= MAX_OBJECT && buffer % 8 == 0 && chunkSize <= MAX_OBJECT
      ensures Valid() && chunks == [Chunk(buffer, size - 24, 0)] && blocks == [[]]
      ensures chunkCapacity == chunkSize && userBuffer
    {
      chunks, blocks, mem := [Chunk(buffer, size - HEADER, 0)], [[]], map[];
      chunkCapacity, userBuffer := chunkSize, true;
    }

    /** The capacity `Malloc` would ask of a new chunk, and whether it would. */
    function Wanted(size: nat): nat {
      if chunkCapacity > Align(size) then chunkCapacity else Align(size)
    }

    predicate NeedsChunk(size: nat)
      reads this
    {
      chunks == [] || chunks[0].size + Align(size) > chunks[0].capacity
    }

    /** The base allocator's part: memory for a header and `capacity` octets, aligned, apart from all chunks. */
    predicate Fresh(base: nat, capacity: nat)
      reads this
    {
      base % 8 == 0 && forall c :: 0 <= c < |chunks| ==> ApartFrom(Chunk(base, capacity, 0), chunks[c])
    }

    method AddChunk(capacity: nat, answer: Option<nat>) returns (ok: bool)
      requires Valid() && capacity <= MAX_OBJECT
      requires answer.Some? ==> Fresh(answer.value, capacity)
      modifies this`chunks, this`blocks
      ensures Valid() && ok == answer.Some?
      ensures ok ==> chunks == [Chunk(answer.value, capacity, 0)] + old(chunks) && blocks == [[]] + old(blocks)
      ensures ok ==> AllThere(old(chunks), chunks, old(blocks), blocks)
      ensures !ok ==> chunks == old(chunks) && blocks == old(blocks)
    {
      if answer.None? { return false; }
      chunks := [Chunk(answer.value, capacity, 0)] + chunks;
      blocks := [[]] + blocks;
      hide ApartFrom, Filled;
      assert Filled(chunks[0], []) by { EmptyFilled(answer.value, capacity); }
      forall c, d | 0 <= c < d < |chunks| ensures ApartFrom(chunks[c], chunks[d]) {
        if c > 0 { assert ApartFrom(old(chunks)[c - 1], old(chunks)[d - 1]); }
      }
      ok := true;
    }

    lemma EmptyFilled(base: nat, capacity: nat)
      requires base % 8 == 0 && capacity <= MAX_OBJECT
      ensures Filled(Chunk(base, capacity, 0), [])
    {
    }

    /** The newest chunk gets `n` more octets, as a new block or as part of its last one. */
    method Use(n: nat, ghost lens: seq<nat>)
      requires Valid() && chunks != [] && chunks[0].size + n <= chunks[0].capacity
      requires Filled(chunks[0].(size := chunks[0].size + n), lens) && Extends(blocks[0], lens)
      modifies this`chunks, this`blocks
      ensures Valid() && chunks == old(chunks)[0 := old(chunks)[0].(size := old(chunks)[0].size + n)]
      ensures blocks == old(blocks)[0 := lens] && AllThere(old(chunks), chunks, old(blocks), blocks)
    {
      hide Filled, Extends, ApartFrom;
      chunks := chunks[0 := chunks[0].(size := chunks[0].size + n)];
      blocks := blocks[0 := lens];
      forall c, d | 0 <= c < d < |chunks| ensures ApartFrom(chunks[c], chunks[d]) {
        assert ApartFrom(old(chunks)[c], old(chunks)[d]);
        SameExtent(old(chunks)[0], n, old(chunks)[d]);
      }
      UseKeeps(old(chunks), n, old(blocks), lens);
    }

    lemma SameExtent(c: Chunk, n: nat, d: Chunk)
      ensures ApartFrom(c.(size := c.size + n), d) == ApartFrom(c, d)
    {
    }

    lemma UseKeeps(chunks: seq<Chunk>, n: nat, blocks: seq<seq<nat>>, lens: seq<nat>)
      requires chunks != [] && |blocks| == |chunks| && Extends(blocks[0], lens)
      ensures AllThere(chunks, chunks[0 := chunks[0].(size := chunks[0].size + n)], blocks, blocks[0 := lens])
    {
    }

    /**
     * `Malloc`. `answer` is what the base allocator would give for a new chunk. The block is the next one of the
     * newest chunk; a null result means a request for nothing, or a base allocator that has nothing.
     */
    method Malloc(size: nat, answer: Option<nat>) returns (p: Option<nat>)
      requires Valid() && size <= MAX_OBJECT - 8
      requires size > 0 && NeedsChunk(size) && answer.Some? ==> Fresh(answer.value, Wanted(size))
      modifies this`chunks, this`blocks
      ensures Valid()
      ensures old(NeedsChunk(size)) <==> old(chunks) == [] || old(chunks)[0].size + Align(size) > old(chunks)[0].capacity
      ensures p.None? <==> size == 0 || (old(NeedsChunk(size)) && answer.None?)
      ensures p.None? ==> chunks == old(chunks) && blocks == old(blocks)
      ensures p.Some? ==> chunks != [] && blocks[0] != [] && p.value == Address(chunks, blocks, 0, |blocks[0]| - 1)
      ensures p.Some? ==> |blocks| == |chunks| && blocks[0][|blocks[0]| - 1] == Align(size)
      ensures p.Some? ==> p.value == chunks[0].base + 24 + (chunks[0].size - Align(size))
      ensures p.Some? ==> AllThere(old(chunks), chunks, old(blocks), blocks)
      ensures p.Some? && old(NeedsChunk(size)) ==>
                && blocks == [[Align(size)]] + old(blocks)
                && var capacity := if chunkCapacity > Align(size) then chunkCapacity else Align(size);
                   chunks == [Chunk(answer.value, capacity, Align(size))] + old(chunks)
      ensures p.Some? && !old(NeedsChunk(size)) ==>
                && old(chunks) != [] && old(blocks) != []
                && chunks == old(chunks)[0 := old(chunks)[0].(size := old(chunks)[0].size + Align(size))]
                && blocks == old(blocks)[0 := old(blocks)[0] + [Align(size)]]
    {
      hide Align, Filled, ApartFrom, Address, AllThere, Sum, Sound;
      AlignExact(size);
      if size == 0 { return None; }
      var n := Align(size);
      AlignKeeps(size);
      if chunks == [] || chunks[0].size + n > chunks[0].capacity {
        var ok := AddChunk(if chunkCapacity > n then chunkCapacity else n, answer);
        if !ok { return None; }
      }
      ghost var chunks1, blocks1 := chunks, blocks;
      SameLength(old(chunks), old(blocks));
      SameLength(chunks, blocks);
      SameThere(old(chunks), old(blocks));
      var buffer := CutBlock(n);
      SameLength(chunks, blocks);
      AllThereThen(old(chunks), chunks1, chunks, old(blocks), blocks1, blocks);
      p := Some(buffer);
      assert [] + [n] == [n];
      assert old(NeedsChunk(size)) ==> blocks == [[n]] + old(blocks);
    }

    lemma AlignKeeps(size: nat)
      requires 0 < size <= MAX_OBJECT - 8
      ensures 0 < Align(size) <= MAX_OBJECT && Align(size) % 8 == 0
    {
    }

    lemma SameLength(chunks: seq<Chunk>, blocks: seq<seq<nat>>)
      requires Sound(chunks, blocks)
      ensures |blocks| == |chunks|
    {
    }

    /** The next `n` octets of the newest chunk become a block. */
    method CutBlock(n: nat) returns (buffer: nat)
      requires Valid() && chunks != [] && n > 0 && n % 8 == 0 && chunks[0].size + n <= chunks[0].capacity
      modifies this`chunks, this`blocks
      ensures Valid() && chunks == old(chunks)[0 := old(chunks)[0].(size := old(chunks)[0].size + n)]
      ensures blocks == old(blocks)[0 := old(blocks)[0] + [n]]
      ensures buffer == Address(chunks, blocks, 0, |blocks[0]| - 1)
      ensures buffer == old(chunks)[0].base + 24 + old(chunks)[0].size
      ensures AllThere(old(chunks), chunks, old(blocks), blocks)
    {
      var head := chunks[0];
      buffer := head.base + HEADER + head.size;
      ghost var lens := blocks[0];
      ghost var more := lens + [n];
      assert Filled(head, lens);
      SumLast(lens, n);
      AppendExtends(lens, n);
      assert more[..|more| - 1] == lens;
      assert Filled(head.(size := head.size + n), more);
      hide Filled, Sum, Extends, AllThere;
      Use(n, more);
    }

    lemma AppendExtends(lens: seq<nat>, n: nat)
      ensures Extends(lens, lens + [n])
    {
    }

    lemma GrowthExtends(lens: seq<nat>, n: nat)
      requires lens != []
      ensures Extends(lens, lens[..|lens| - 1] + [lens[|lens| - 1] + n])
    {
      var grown := lens[..|lens| - 1] + [lens[|lens| - 1] + n];
      forall f | 0 <= f < |lens| ensures grown[..f] == lens[..f] {
      }
    }

    /** Block `i` of chunk `c` is the one at `p`, and at least as long as its owner believes. */
    ghost predicate Owns(p: nat, size: nat, c: nat, i: nat)
      reads this
    {
      && |blocks| == |chunks| && c < |chunks| && i < |blocks[c]|
      && p == Address(chunks, blocks, c, i) && size <= blocks[c][i]
    }

    /** The address compared in `Realloc` is that of the last block of the newest chunk, and of no other. */
    lemma LastBlock(p: nat, size: nat, c: nat, i: nat)
      requires Valid() && Owns(p, size, c, i)
      ensures p + size == Data(chunks[0]) + chunks[0].size <==> c == 0 && i == |blocks[0]| - 1 && size == blocks[0][i]
    {
      BlockInside(chunks, blocks, c, i);
      assert Filled(chunks[0], blocks[0]);
      if c == 0 {
        SumPrefix(blocks[0], i);
        if i == |blocks[0]| - 1 {
          assert blocks[0][..i + 1] == blocks[0];
        } else {
          BlockInside(chunks, blocks, 0, |blocks[0]| - 1);
          SumOrder(blocks[0], i, |blocks[0]| - 1);
        }
      } else {
        assert ApartFrom(chunks[0], chunks[c]);
      }
    }

    /** `memcpy` between two ranges that do not overlap. */
    method Copy(to: nat, source: nat, n: nat)
      requires to + n <= source || source + n <= to
      modifies this`mem
      ensures Copied(old(mem), mem, to, source, n)
    {
      var m: map<nat, Byte> := mem;
      ghost var m0 := mem;
      for k := 0 to n
        invariant Copied(m0, m, to, source, k)
      {
        CopyStep(m0, m, to, source, k);
        m := m[to + k := At(m, source + k)];
      }
      mem := m;
    }

    /** The last block of the newest chunk grows by `n` where it is. */
    method GrowLast(n: nat)
      requires Valid() && chunks != [] && blocks[0] != [] && n % 8 == 0 && chunks[0].size + n <= chunks[0].capacity
      modifies this`chunks, this`blocks
      ensures Valid()
      ensures var last := |old(blocks)[0]| - 1;
              && blocks == old(blocks)[0 := old(blocks)[0][..last] + [old(blocks)[0][last] + n]]
              && chunks == old(chunks)[0 := old(chunks)[0].(size := old(chunks)[0].size + n)]
              && AllThere(old(chunks), chunks, old(blocks), blocks)
    {
      ghost var lens, last := blocks[0], |blocks[0]| - 1;
      ghost var grown := lens[..last] + [lens[last] + n];
      assert Filled(chunks[0], lens);
      SumLast(lens[..last], lens[last] + n);
      GrowthExtends(lens, n);
      assert Filled(chunks[0].(size := chunks[0].size + n), grown);
      hide Filled, Sum, Extends, AllThere;
      Use(n, grown);
    }

    /** The block just cut lies apart from block `i` of what was chunk `c`. */
    lemma NewBlockApart(chunks0: seq<Chunk>, blocks0: seq<seq<nat>>, c: nat, i: nat, size: nat)
      requires Valid() && AllThere(chunks0, chunks, blocks0, blocks)
      requires c < |chunks0| && i < |blocks0[c]| && size <= blocks0[c][i] && chunks != [] && blocks[0] != []
      requires |chunks| > |chunks0| || |blocks[0]| == |blocks0[0]| + 1
      ensures var a, b, j := Address(chunks0, blocks0, c, i), Address(chunks, blocks, 0, |blocks[0]| - 1), |blocks[0]| - 1;
              a != b && (a + size <= b || b + blocks[0][j] <= a)
    {
      assert There(chunks0, chunks, blocks0, blocks, c, i);
      BlocksDisjoint(chunks, blocks, c + (|chunks| - |chunks0|), i, 0, |blocks[0]| - 1);
    }

    lemma CopiedInside(m0: map<nat, Byte>, m1: map<nat, Byte>, to: nat, source: nat, n: nat)
      requires Copied(m0, m1, to, source, n)
      ensures SameContents(m0, m1, to, source, n) && SameElsewhere(m0, m1, to, n)
    {
      forall a: nat | a < to || a >= to + n ensures At(m1, a) == At(m0, a) {
        assert At(m1, a) == At(m0, Origin(to, source, n, a));
      }
    }

    /** Block `i` of chunk `c`, named with its full length `o`, is the last of the newest chunk, which has room for `n`. */
    ghost predicate HasRoom(o: nat, n: nat, c: nat, i: nat)
      reads this
    {
      && c == 0 && chunks != [] && blocks != [] && blocks[0] != []
      && i == |blocks[0]| - 1 && o == blocks[0][i] && chunks[0].size + (n - o) <= chunks[0].capacity
    }

    /** In `Realloc`: the block grows where it is, exactly if it is the last one and the chunk has room. */
    method Expand(p: nat, o: nat, n: nat, ghost c: nat, ghost i: nat) returns (ok: bool)
      requires Valid() && Owns(p, o, c, i) && o < n && o % 8 == 0 && n % 8 == 0
      modifies this`chunks, this`blocks
      ensures Valid() && AllThere(old(chunks), chunks, old(blocks), blocks)
      ensures ok <==> old(HasRoom(o, n, c, i))
      ensures old(chunks) != [] && |old(blocks)| == |old(chunks)|
      ensures ok <==> c == 0 && i == |old(blocks)[0]| - 1 && o == old(blocks)[0][i]
                      && old(chunks)[0].size + (n - o) <= old(chunks)[0].capacity
      ensures ok ==> Owns(p, n, 0, i) && old(chunks) != [] && old(blocks) != []
      ensures ok ==> blocks == old(blocks)[0 := old(blocks)[0][..|old(blocks)[0]| - 1] + [n]]
      ensures ok ==> chunks == old(chunks)[0 := old(chunks)[0].(size := old(chunks)[0].size + (n - o))]
      ensures !ok ==> chunks == old(chunks) && blocks == old(blocks)
    {
      hide Sum, ApartFrom, Filled, Sound, AllThere;
      SameThere(chunks, blocks);
      ok := false;
      LastBlock(p, o, c, i);
      if p + o == chunks[0].base + HEADER + chunks[0].size {
        if chunks[0].size + (n - o) <= chunks[0].capacity {
          ghost var chunks0, blocks0 := chunks, blocks;
          GrowLast(n - o);
          ThereAt(chunks0, chunks, blocks0, blocks, 0, i);
          ok := true;
        }
      }
    }

    lemma ThereAt(chunks0: seq<Chunk>, chunks1: seq<Chunk>, blocks0: seq<seq<nat>>, blocks1: seq<seq<nat>>, e: nat, f: nat)
      requires AllThere(chunks0, chunks1, blocks0, blocks1) && e < |chunks0| && |blocks0| == |chunks0| && f < |blocks0[e]|
      ensures |chunks0| <= |chunks1| == |blocks1| && There(chunks0, chunks1, blocks0, blocks1, e, f)
    {
    }

    /** In `Realloc`: a new block with the old contents; the old one is not given back. */
    method Move(p: nat, o: nat, n: nat, answer: Option<nat>, ghost c: nat, ghost i: nat)
      returns (r: Option<nat>, ghost j: nat)
      requires Valid() && Owns(p, o, c, i) && o < n <= MAX_OBJECT - 8 && Align(n) == n
      requires answer.Some? ==> Fresh(answer.value, Wanted(n))
      modifies this
      ensures Valid() && (r.None? <==> old(NeedsChunk(n)) && answer.None?)
      ensures r.None? ==> chunks == old(chunks) && blocks == old(blocks) && mem == old(mem)
      ensures r.Some? && old(NeedsChunk(n)) ==> blocks == [[n]] + old(blocks)
      ensures r.Some? && !old(NeedsChunk(n)) ==> old(blocks) != [] && blocks == old(blocks)[0 := old(blocks)[0] + [n]]
      ensures r.Some? ==> Owns(r.value, n, 0, j) && r.value != p && AllThere(old(chunks), chunks, old(blocks), blocks)
      ensures r.Some? ==> SameContents(old(mem), mem, r.value, p, o) && SameElsewhere(old(mem), mem, r.value, o)
    {
      hide Sum, ApartFrom, Filled, Sound, AllThere, Align, At, Copied, SameContents, SameElsewhere;
      ghost var chunks0, blocks0, m0 := chunks, blocks, mem;
      j := 0;
      r := Malloc(n, answer);
      if r.None? { return; }
      j := |blocks[0]| - 1;
      NewBlockApart(chunks0, blocks0, c, i, o);
      Copy(r.value, p, o);
      CopiedInside(m0, mem, r.value, p, o);
    }

    /**
     * `Realloc` of block `i` of chunk `c`. It gives a block of the new length with the old contents, at the old
     * place when that is the last block and the chunk has room, or when no growth is wanted; the old block and
     * all others keep their place, and memory changes only inside a new block.
     */
    method Realloc(p: Option<nat>, originalSize: nat, newSize: nat, answer: Option<nat>, ghost c: nat, ghost i: nat)
      returns (r: Option<nat>, ghost d: nat, ghost j: nat)
      requires Valid() && originalSize <= MAX_OBJECT - 16 && newSize <= MAX_OBJECT - 16
      requires p.Some? ==> Owns(p.value, Align(originalSize), c, i)
      requires answer.Some? ==> Fresh(answer.value, Wanted(newSize))
      modifies this
      ensures Valid()
      ensures var grows := Align(originalSize) < Align(newSize);
              var room := old(HasRoom(Align(originalSize), Align(newSize), c, i));
              && (r.None? <==> newSize == 0
                               || ((p.None? || (grows && !room)) && old(NeedsChunk(newSize)) && answer.None?))
              && (p.Some? && r.Some? ==> (r == p <==> !grows || room))
              && (r.Some? && p.Some? && !grows ==> chunks == old(chunks) && blocks == old(blocks))
              && (r.Some? && p.Some? && grows && room ==>
                    && old(blocks) != []
                    && blocks == old(blocks)[0 := old(blocks)[0][..|old(blocks)[0]| - 1] + [Align(newSize)]])
              && (r.Some? && (p.None? || (grows && !room)) ==>
                    if old(NeedsChunk(newSize)) then blocks == [[Align(newSize)]] + old(blocks)
                    else old(blocks) != [] && blocks == old(blocks)[0 := old(blocks)[0] + [Align(newSize)]])
      ensures r.None? ==> chunks == old(chunks) && blocks == old(blocks) && mem == old(mem)
      ensures r.Some? ==> Owns(r.value, Align(newSize), d, j)
      ensures r.Some? && p.Some? ==>
                var kept := if originalSize < newSize then originalSize else newSize;
                SameContents(old(mem), mem, r.value, p.value, kept)
      ensures r == p ==> mem == old(mem)
      ensures r.Some? ==> SameElsewhere(old(mem), mem, r.value, Align(newSize))
      ensures r.Some? ==> AllThere(old(chunks), chunks, old(blocks), blocks)
    {
      AlignTwice(originalSize);
      AlignTwice(newSize);
      hide Sum, ApartFrom, Filled, Sound, AllThere, Align, At, Copied, SameContents, SameElsewhere;
      r, d, j := None, 0, 0;
      ghost var chunks0, blocks0 := chunks, blocks;
      var kept := if originalSize < newSize then originalSize else newSize;
      if p.None? {
        r := Malloc(newSize, answer);
        if r.Some? {
          j := |blocks[0]| - 1;
          SameMemory(mem, r.value, 0, Align(newSize));
        }
        return;
      }
      SameMemory(mem, p.value, kept, Align(newSize));
      if newSize == 0 { return; }
      var o, n := Align(originalSize), Align(newSize);
      if o >= n {
        SameThere(chunks, blocks);
        return p, c, i;
      }
      var ok := Expand(p.value, o, n, c, i);
      if ok { return p, 0, i; }
      ghost var m0 := mem;
      r, j := Move(p.value, o, n, answer, c, i);
      if r.Some? { SameLess(m0, mem, r.value, p.value, o, kept, n); }
    }

    /** `Size`: the loop over the list. */
    method Size() returns (size: nat)
      requires Valid()
      ensures size == TotalSize(chunks) == TotalLength(blocks)
    {
      UsedIsHandedOut(chunks, blocks);
      size := 0;
      assert chunks[0..] == chunks;
      for c := 0 to |chunks|
        invariant TotalSize(chunks) == size + TotalSize(chunks[c..])
      {
        assert chunks[c..][1..] == chunks[c + 1..];
        size := size + chunks[c].size;
      }
    }

    method Capacity() returns (capacity: nat)
      requires Valid()
      ensures capacity == TotalCapacity(chunks) >= TotalLength(blocks)
    {
      UsedIsHandedOut(chunks, blocks);
      capacity := 0;
      assert chunks[0..] == chunks;
      for c := 0 to |chunks|
        invariant TotalCapacity(chunks) == capacity + TotalCapacity(chunks[c..])
      {
        assert chunks[c..][1..] == chunks[c + 1..];
        capacity := capacity + chunks[c].capacity;
      }
    }

    /** `Clear`: everything is given back but the caller's buffer, which is empty again. */
    method Clear()
      requires Valid()
      modifies this`chunks, this`blocks
      ensures Valid()
      ensures if userBuffer then var last := old(chunks)[|old(chunks)| - 1]; chunks == [last.(size := 0)] && blocks == [[]]
              else chunks == [] && blocks == []
    {
      while |chunks| > if userBuffer then 1 else 0
        invariant Valid()
        invariant |chunks| <= |old(chunks)| && chunks == old(chunks)[|old(chunks)| - |chunks|..]
        decreases |chunks|
      {
        SoundTail(chunks, blocks);
        chunks, blocks := chunks[1..], blocks[1..];
      }
      if userBuffer {
        assert Filled(chunks[0], blocks[0]);
        chunks, blocks := [chunks[0].(size := 0)], [[]];
      }
    }
  }
}
