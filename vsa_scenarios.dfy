/**
  Concrete runs of the allocator: the two test sequences of the allocator's
  own test program, and a run that shows the largest-chunk scan reporting less
  than the largest free payload.
*/
module VsaScenarios {
  import opened Wrappers
  import opened VsaBlocks
  import opened Vsa

  function F(size: nat): Block { Block(true, size, Stamped) }
  function A(size: nat): Block { Block(false, size, Stamped) }

  /** A coalesced chain on which a request for `n` bytes lands in block `k`. */
  ghost predicate Picks(bs: seq<Block>, n: nat, k: nat)
  {
    && NoAdjacentFree(bs)
    && k < |bs| && Fits(bs[k], NeededSize(n))
    && (forall j :: 0 <= j < k ==> !Fits(bs[j], NeededSize(n)))
  }

  /** A coalesced chain on which no block fits a request for `n` bytes. */
  ghost predicate NoneFits(bs: seq<Block>, n: nat)
  {
    && NoAdjacentFree(bs)
    && (forall j :: 0 <= j < |bs| ==> !Fits(bs[j], NeededSize(n)))
  }

  /** On a chain with no adjacent free blocks the pass changes nothing and first fit is block `k`. */
  lemma {:induction false} PickedBlock(bs: seq<Block>, n: nat, k: nat)
    requires Picks(bs, n, k)
    ensures Coalesce(bs) == bs && FirstFit(bs, NeededSize(n)) == Some(k)
  {
    CoalesceFixpoint(bs);
    FirstFitAt(bs, NeededSize(n), k);
  }

  /** On a chain with no adjacent free blocks and no block that fits, allocation finds nothing. */
  lemma {:induction false} NothingFits(bs: seq<Block>, n: nat)
    requires NoneFits(bs, n)
    ensures Coalesce(bs) == bs && FirstFit(bs, NeededSize(n)) == None
  {
    CoalesceFixpoint(bs);
  }

  /** The largest chunk of a chain with no adjacent free blocks and one free block `k`. */
  lemma {:induction false} OneFree(bs: seq<Block>, k: nat)
    requires NoAdjacentFree(bs) && SizesAtLeastHeader(bs)
    requires k < |bs| && bs[k].isFree
    requires forall j :: 0 <= j < |bs| && j != k ==> !bs[j].isFree
    ensures Coalesce(bs) == bs && LargestScan(bs) == bs[k].size - HEADER_SIZE
  {
    CoalesceFixpoint(bs);
    LargestScanSingleFree(bs, k);
  }

  /** Allocate `n` bytes on a chain already coalesced, then read the largest chunk. */
  method AllocThenRead(v: Allocator, n: nat, ghost k: nat) returns (p: Option<nat>, c: nat)
    requires v.Valid() && n < SIZE_T_LIMIT && Picks(v.blocks, n, k)
    modifies v
    ensures v.Valid()
    ensures p == Some(v.firstHeader + Offset(old(v.blocks), k) + HEADER_SIZE)
    ensures v.blocks == Coalesce(Carve(old(v.blocks), k, NeededSize(n)))
    ensures c == LargestScan(v.blocks)
  {
    PickedBlock(v.blocks, n, k);
    p := v.Alloc(n);
    c := v.LargestChunk();
  }

  /** Free the payload of block `k`, then read the largest chunk. */
  method FreeThenRead(v: Allocator, p: nat, ghost k: nat) returns (c: nat)
    requires v.Valid() && k < |v.blocks| && !v.blocks[k].isFree
    requires p == v.firstHeader + Offset(v.blocks, k) + HEADER_SIZE
    modifies v
    ensures v.Valid()
    ensures v.blocks == Coalesce(FreeAt(old(v.blocks), k))
    ensures c == LargestScan(v.blocks)
  {
    BlockOfUnique(v.firstHeader, v.blocks, k);
    v.Free(p);
    c := v.LargestChunk();
  }

  /** A request nothing fits, then read the largest chunk. */
  method FailThenRead(v: Allocator, n: nat) returns (p: Option<nat>, c: nat)
    requires v.Valid() && n < SIZE_T_LIMIT && NoneFits(v.blocks, n)
    modifies v
    ensures v.Valid() && p == None && v.blocks == old(v.blocks)
    ensures c == LargestScan(v.blocks)
  {
    NothingFits(v.blocks, n);
    p := v.Alloc(n);
    c := v.LargestChunk();
  }

  /** Init followed at once by a reading: the region minus the alignment shift, the handle and one header. */
  method InitThenRead(addr: nat, size: nat) returns (c: nat)
    requires addr != 0 && addr < SIZE_T_LIMIT && size < SIZE_T_LIMIT
    requires size >= AlignShift(addr) + HANDLE_SIZE + HEADER_SIZE
    ensures c == size - AlignShift(addr) - HANDLE_SIZE - HEADER_SIZE
  {
    var v := new Allocator.Init(addr, size, false);
    c := v.LargestChunk();
    LargestScanSingleFree(v.blocks, 0);
  }

  /**
    For every valid allocator and every request: take a largest-chunk
    reading, allocate, free what was granted (if anything), and read again.
    The second reading equals the first, because the freed block merges back
    with the free space it was carved from.
  */
  method AllocFreeRoundTrip(v: Allocator, n: nat) returns (before: nat, p: Option<nat>, after: nat)
    requires v.Valid() && n < SIZE_T_LIMIT
    modifies v
    ensures v.Valid() && after == before
  {
    ghost var b0 := v.blocks;
    before := v.LargestChunk();
    ghost var cs := v.blocks;
    CoalesceIdempotent(b0);
    p := v.Alloc(n);
    AllocFreeRestores(v.firstHeader, cs, n, p, v.blocks);
    if p.Some? {
      v.Free(p.value);
    }
    after := v.LargestChunk();
  }

  // The aligned run, step by step on values.

  lemma AlignedAlloc10()
    ensures Picks([F(192)], 10, 0)
    ensures Coalesce(Carve([F(192)], 0, NeededSize(10))) == [A(48), F(144)]
    ensures LargestScan([A(48), F(144)]) == 112
  {
    assert Carve([F(192)], 0, NeededSize(10)) == [A(48), F(144)];
    OneFree([A(48), F(144)], 1);
  }

  lemma AlignedAlloc20()
    ensures Picks([A(48), F(144)], 20, 1) && Offset([A(48), F(144)], 1) == 48
    ensures Coalesce(Carve([A(48), F(144)], 1, NeededSize(20))) == [A(48), A(56), F(88)]
    ensures LargestScan([A(48), A(56), F(88)]) == 56
  {
    assert Carve([A(48), F(144)], 1, NeededSize(20)) == [A(48), A(56), F(88)];
    OneFree([A(48), A(56), F(88)], 2);
  }

  lemma AlignedAlloc5()
    ensures Picks([A(48), A(56), F(88)], 5, 2) && Offset([A(48), A(56), F(88)], 2) == 104
    ensures Coalesce(Carve([A(48), A(56), F(88)], 2, NeededSize(5))) == [A(48), A(56), A(40), F(48)]
    ensures LargestScan([A(48), A(56), A(40), F(48)]) == 16
  {
    assert Carve([A(48), A(56), F(88)], 2, NeededSize(5)) == [A(48), A(56), A(40), F(48)];
    OneFree([A(48), A(56), A(40), F(48)], 3);
  }

  lemma AlignedAlloc7()
    ensures Picks([A(48), A(56), A(40), F(48)], 7, 3)
    ensures Coalesce(Carve([A(48), A(56), A(40), F(48)], 3, NeededSize(7))) == [A(48), A(56), A(40), A(48)]
    ensures LargestScan([A(48), A(56), A(40), A(48)]) == 0
  {
    var bs := [A(48), A(56), A(40), A(48)];
    assert Carve([A(48), A(56), A(40), F(48)], 3, NeededSize(7)) == bs;
    CoalesceFixpoint(bs);
    LargestScanIsFreePayload(bs);
  }

  lemma AlignedFree2()
    ensures Offset([A(48), A(56), A(40), A(48)], 1) == 48
    ensures Coalesce(FreeAt([A(48), A(56), A(40), A(48)], 1)) == [A(48), F(56), A(40), A(48)]
    ensures LargestScan([A(48), F(56), A(40), A(48)]) == 24
  {
    assert FreeAt([A(48), A(56), A(40), A(48)], 1) == [A(48), F(56), A(40), A(48)];
    OneFree([A(48), F(56), A(40), A(48)], 1);
  }

  /** Freeing a block next to a free one merges the two on the next pass. */
  lemma AlignedFree3()
    ensures Offset([A(48), F(56), A(40), A(48)], 2) == 104
    ensures Coalesce(FreeAt([A(48), F(56), A(40), A(48)], 2)) == [A(48), F(96), A(48)]
    ensures LargestScan([A(48), F(96), A(48)]) == 64
  {
    var bs := [A(48), F(56), F(40), A(48)];
    assert FreeAt([A(48), F(56), A(40), A(48)], 2) == bs;
    assert Coalesce(bs[1..]) == Coalesce([F(96), A(48)]);
    assert Coalesce(bs) == [A(48)] + Coalesce(bs[1..]);
    OneFree([A(48), F(96), A(48)], 1);
  }

  lemma AlignedRealloc20()
    ensures Picks([A(48), F(96), A(48)], 20, 1)
    ensures NoneFits([A(48), A(56), F(40), A(48)], 9)
    ensures Coalesce(Carve([A(48), F(96), A(48)], 1, NeededSize(20))) == [A(48), A(56), F(40), A(48)]
    ensures LargestScan([A(48), A(56), F(40), A(48)]) == 8
  {
    assert Carve([A(48), F(96), A(48)], 1, NeededSize(20)) == [A(48), A(56), F(40), A(48)];
    OneFree([A(48), A(56), F(40), A(48)], 2);
  }

  /**
    The aligned run: a 200-byte region at an aligned address; allocations of
    10, 20, 5 and 7 bytes; the second and third freed; 20 bytes allocated
    again; then a 9-byte request that fails.  `chunks` are the largest-chunk
    readings after each step.
  */
  method AlignedRun() returns (chunks: seq<nat>, last: Option<nat>)
    ensures chunks == [160, 112, 56, 16, 0, 24, 64, 8, 8]
    ensures last == None
  {
    var v := new Allocator.Init(4096, 200, false);
    OneFree([F(192)], 0);
    var c0 := v.LargestChunk();

    AlignedAlloc10();
    var p1, c1 := AllocThenRead(v, 10, 0);
    AlignedAlloc20();
    var p2, c2 := AllocThenRead(v, 20, 1);
    AlignedAlloc5();
    var p3, c3 := AllocThenRead(v, 5, 2);
    AlignedAlloc7();
    var p4, c4 := AllocThenRead(v, 7, 3);

    AlignedFree2();
    var c5 := FreeThenRead(v, p2.value, 1);
    AlignedFree3();
    var c6 := FreeThenRead(v, p3.value, 2);

    AlignedRealloc20();
    var p5, c7 := AllocThenRead(v, 20, 1);
    var c8;
    last, c8 := FailThenRead(v, 9);
    chunks := [c0, c1, c2, c3, c4, c5, c6, c7, c8];
  }

  // The misaligned run, step by step on values.

  lemma MisalignedAlloc7()
    ensures Picks([F(87)], 7, 0)
    ensures Coalesce(Carve([F(87)], 0, NeededSize(7))) == [A(40), F(47)]
    ensures LargestScan([A(40), F(47)]) == 15
    ensures NoneFits([A(40), F(47)], 9) && Offset([A(40), F(47)], 0) == 0
  {
    assert Carve([F(87)], 0, NeededSize(7)) == [A(40), F(47)];
    OneFree([A(40), F(47)], 1);
  }

  /** The freed first block merges with the free tail, giving back the whole region. */
  lemma MisalignedFree()
    ensures Coalesce(FreeAt([A(40), F(47)], 0)) == [F(87)]
    ensures LargestScan([F(87)]) == 55
    ensures Picks([F(87)], 15, 0)
  {
    assert FreeAt([A(40), F(47)], 0) == [F(40), F(47)];
    assert Coalesce([F(40), F(47)]) == Coalesce([F(87)]);
    OneFree([F(87)], 0);
  }

  /** 87 - 48 leaves 39 bytes, too few for a header and a word, so the block is not split. */
  lemma MisalignedAlloc15()
    ensures Coalesce(Carve([F(87)], 0, NeededSize(15))) == [A(87)]
    ensures LargestScan([A(87)]) == 0
    ensures NoneFits([A(87)], 9)
  {
    assert Carve([F(87)], 0, NeededSize(15)) == [A(87)];
    LargestScanIsFreePayload([A(87)]);
  }

  /**
    The misaligned run: a 100-byte region starting 3 bytes past a word
    boundary, so that 5 bytes are skipped and the single block is 87 bytes;
    a 7-byte allocation, a 9-byte request that fails, the freeing of the
    first allocation, a 15-byte allocation that takes the whole block, and a
    9-byte request that fails.
  */
  method MisalignedRun() returns (chunks: seq<nat>, failed: seq<Option<nat>>)
    ensures chunks == [55, 15, 15, 55, 0, 0]
    ensures failed == [None, None]
  {
    var v := new Allocator.Init(4099, 100, false);
    OneFree([F(87)], 0);
    var c0 := v.LargestChunk();

    MisalignedAlloc7();
    var p1, c1 := AllocThenRead(v, 7, 0);
    var q1, c2 := FailThenRead(v, 9);

    MisalignedFree();
    var c3 := FreeThenRead(v, p1.value, 0);

    MisalignedAlloc15();
    var p2, c4 := AllocThenRead(v, 15, 0);
    var q2, c5 := FailThenRead(v, 9);
    chunks := [c0, c1, c2, c3, c4, c5];
    failed := [q1, q2];
  }

  // The scan quirk in a run.

  lemma QuirkAlloc72()
    ensures Picks([F(240)], 72, 0)
    ensures Coalesce(Carve([F(240)], 0, NeededSize(72))) == [A(104), F(136)]
    ensures Offset([A(104), F(136)], 0) == 0
  {
    assert Carve([F(240)], 0, NeededSize(72)) == [A(104), F(136)];
    OneFree([A(104), F(136)], 1);
  }

  lemma QuirkAlloc8()
    ensures Picks([A(104), F(136)], 8, 1)
    ensures Coalesce(Carve([A(104), F(136)], 1, NeededSize(8))) == [A(104), A(40), F(96)]
    ensures Offset([A(104), A(40), F(96)], 0) == 0
  {
    assert Carve([A(104), F(136)], 1, NeededSize(8)) == [A(104), A(40), F(96)];
    OneFree([A(104), A(40), F(96)], 2);
  }

  lemma QuirkFree()
    ensures Coalesce(FreeAt([A(104), A(40), F(96)], 0)) == [F(104), A(40), F(96)]
    ensures LargestScan([F(104), A(40), F(96)]) == 64
    ensures Picks([F(104), A(40), F(96)], 72, 0)
  {
    var bs := [F(104), A(40), F(96)];
    assert FreeAt([A(104), A(40), F(96)], 0) == bs;
    CoalesceFixpoint(bs);
    LargestScanUnderReports();
  }

  /**
    A 248-byte aligned region: allocate 72 bytes, then 8, then free the first.
    The free blocks then hold payloads of 72 and 64 bytes, yet the
    largest-chunk reading is 64, and a 72-byte request still succeeds.
  */
  method QuirkRun() returns (c: nat, granted: Option<nat>)
    ensures c == 64 && granted.Some?
  {
    var v := new Allocator.Init(4096, 248, false);
    QuirkAlloc72();
    var p1, c1 := AllocThenRead(v, 72, 0);
    QuirkAlloc8();
    var p2, c2 := AllocThenRead(v, 8, 1);
    QuirkFree();
    c := FreeThenRead(v, p1.value, 0);
    var c3;
    granted, c3 := AllocThenRead(v, 72, 0);
  }
}
