/**
  The block chain of the variable-size allocator, as values.

  A region is a chain of blocks in address order.  Each block starts with a
  header (free flag, link to the next header, total size including the header,
  integrity cookie).  Here the chain is a sequence of `Block` records; the byte
  offset of a block from the first header is the sum of the sizes before it,
  and "next" is the following element.  `Laid` ties the sequence to the
  header records that the allocator keeps in memory, keyed by address.
*/
module VsaBlocks {
  import opened Wrappers

  /** sizeof(long) on the 64-bit target. */
  const WORD_SIZE: nat := 8
  /** sizeof(header_t): four 8-byte fields. */
  const HEADER_SIZE: nat := 32
  /** sizeof(vsa_t): one pointer. */
  const HANDLE_SIZE: nat := 8
  /** Every size_t value is below this bound. */
  const SIZE_T_LIMIT: nat := 0x1_0000_0000_0000_0000

  /** The integrity tag: COOKIE when stamped, 0 once a header has been absorbed. */
  datatype Cookie = Stamped | Cleared

  /** A header record as it sits in the region. */
  datatype Header = Header(isFree: bool, next: Option<nat>, blockSize: nat, cookie: Cookie)

  /** The abstract view of one block of the chain. */
  datatype Block = Block(isFree: bool, size: nat, cookie: Cookie)

  // ---------------------------------------------------------------------------
  // Sizes and offsets

  function SumSizes(bs: seq<Block>): nat
  {
    if bs == [] then 0 else bs[0].size + SumSizes(bs[1..])
  }

  lemma {:induction false} SumSizesAppend(a: seq<Block>, b: seq<Block>)
    ensures SumSizes(a + b) == SumSizes(a) + SumSizes(b)
  {
    if a == [] {
      assert a + b == b;
    } else {
      assert (a + b)[1..] == a[1..] + b;
      SumSizesAppend(a[1..], b);
    }
  }

  /** Distance in bytes from the first header to the header of block `i`. */
  function Offset(bs: seq<Block>, i: nat): nat
    requires i <= |bs|
  {
    SumSizes(bs[..i])
  }

  lemma {:induction false} OffsetNext(bs: seq<Block>, i: nat)
    requires i < |bs|
    ensures Offset(bs, i + 1) == Offset(bs, i) + bs[i].size
  {
    assert bs[..i + 1] == bs[..i] + [bs[i]];
    SumSizesAppend(bs[..i], [bs[i]]);
    assert [bs[i]][1..] == [];
  }

  lemma {:induction false} OffsetEnd(bs: seq<Block>)
    ensures Offset(bs, |bs|) == SumSizes(bs)
  {
    assert bs[..|bs|] == bs;
  }

  /** Every block is at least one header long, so offsets strictly increase. */
  ghost predicate SizesAtLeastHeader(bs: seq<Block>)
  {
    forall i :: 0 <= i < |bs| ==> bs[i].size >= HEADER_SIZE
  }

  lemma {:induction false} OffsetsIncrease(bs: seq<Block>, i: nat, j: nat)
    requires SizesAtLeastHeader(bs)
    requires i < j <= |bs|
    ensures Offset(bs, i) + bs[i].size <= Offset(bs, j)
    decreases j - i
  {
    OffsetNext(bs, i);
    if i + 1 < j {
      OffsetsIncrease(bs, i + 1, j);
      OffsetNext(bs, i + 1);
    }
  }

  lemma {:induction false} OffsetsDistinct(bs: seq<Block>, i: nat, j: nat)
    requires SizesAtLeastHeader(bs)
    requires i < |bs| && j < |bs| && i != j
    ensures Offset(bs, i) != Offset(bs, j)
  {
    if i < j { OffsetsIncrease(bs, i, j); } else { OffsetsIncrease(bs, j, i); }
  }

  /**
    Replacing the blocks `bs[i..i+k]` by `mid` of the same total size keeps the
    offsets of the blocks before and after the replaced run.
  */
  lemma {:induction false} OffsetsOfReplace(bs: seq<Block>, i: nat, k: nat, mid: seq<Block>, j: nat)
    requires i + k <= |bs| && |mid| >= 1
    requires SumSizes(mid) == SumSizes(bs[i..i + k])
    ensures var bs' := bs[..i] + mid + bs[i + k..];
      (j <= i ==> Offset(bs', j) == Offset(bs, j)) &&
      (i + |mid| <= j <= |bs'| ==> Offset(bs', j) == Offset(bs, j - |mid| + k))
  {
    var bs' := bs[..i] + mid + bs[i + k..];
    if j <= i {
      assert bs'[..j] == bs[..j];
    } else if i + |mid| <= j <= |bs'| {
      var t := j - |mid| - i;
      assert bs'[..j] == bs[..i] + mid + bs[i + k..][..t];
      assert bs[i + k..][..t] == bs[i + k..i + k + t];
      assert bs[..i + k] == bs[..i] + bs[i..i + k];
      assert bs[..i + k + t] == bs[..i + k] + bs[i + k..i + k + t];
      assert j - |mid| + k == i + k + t;
      SumSizesAppend(bs[..i] + mid, bs[i + k..][..t]);
      SumSizesAppend(bs[..i], mid);
      SumSizesAppend(bs[..i] + bs[i..i + k], bs[i + k..][..t]);
      SumSizesAppend(bs[..i], bs[i..i + k]);
    }
  }

  // ---------------------------------------------------------------------------
  // The chain invariant

  /**
    What holds of the chain after every public operation: at least one block,
    every block at least a header long and stamped, and every block but the
    last a whole number of words (so every header, hence every payload, stays
    word-aligned).
  */
  ghost predicate WellFormed(bs: seq<Block>)
  {
    && |bs| >= 1
    && SizesAtLeastHeader(bs)
    && (forall i :: 0 <= i < |bs| ==> bs[i].cookie == Stamped)
    && (forall i :: 0 <= i < |bs| - 1 ==> bs[i].size % WORD_SIZE == 0)
  }

  /**
    The header that block `i` has in memory when the first header is at
    `first`: its link points `size` bytes further on, or nowhere for the last.
  */
  function HeaderAt(first: nat, bs: seq<Block>, i: nat): Header
    requires i < |bs|
  {
    Header(bs[i].isFree,
           if i + 1 < |bs| then Some(first + Offset(bs, i) + bs[i].size) else None,
           bs[i].size,
           bs[i].cookie)
  }

  /**
    The headers in `mem` form the chain `bs`: each header sits at the previous
    one's address plus its size, links to the following one, and the last one
    links to nothing.
  */
  ghost predicate Laid(mem: map<nat, Header>, first: nat, bs: seq<Block>)
  {
    forall i :: 0 <= i < |bs| ==>
      first + Offset(bs, i) in mem && mem[first + Offset(bs, i)] == HeaderAt(first, bs, i)
  }

  /** The addresses of the live headers: the first one, then those of the rest of the chain. */
  ghost function HeaderAddresses(first: nat, bs: seq<Block>): set<nat>
    decreases |bs|
  {
    if bs == [] then {} else {first} + HeaderAddresses(first + bs[0].size, bs[1..])
  }

  /** Offsets past the first block are offsets in the rest of the chain, shifted by its size. */
  lemma {:induction false} OffsetTail(bs: seq<Block>, i: nat)
    requires 0 < i <= |bs|
    ensures Offset(bs, i) == bs[0].size + Offset(bs[1..], i - 1)
  {
    assert bs[..i][1..] == bs[1..][..i - 1];
  }

  /** The header of block `i` is one of the live header addresses. */
  lemma {:induction false} HeaderAddressIn(first: nat, bs: seq<Block>, i: nat)
    requires i < |bs|
    ensures first + Offset(bs, i) in HeaderAddresses(first, bs)
    decreases i
  {
    if i > 0 {
      HeaderAddressIn(first + bs[0].size, bs[1..], i - 1);
      OffsetTail(bs, i);
    }
  }

  /** The index of the block whose header is at live address `a`. */
  ghost function HeaderIndex(first: nat, bs: seq<Block>, a: nat): (i: nat)
    requires a in HeaderAddresses(first, bs)
    ensures i < |bs| && a == first + Offset(bs, i)
    decreases |bs|
  {
    if a == first then
      assert Offset(bs, 0) == 0; 0
    else
      var j := HeaderIndex(first + bs[0].size, bs[1..], a);
      OffsetTail(bs, j + 1);
      j + 1
  }

  /** The allocated blocks, each with its header address, for a chain starting at `base`. */
  ghost function Allocations(bs: seq<Block>, base: nat): set<(nat, Block)>
  {
    if bs == [] then {}
    else (if bs[0].isFree then {} else {(base, bs[0])}) + Allocations(bs[1..], base + bs[0].size)
  }

  /** The allocation record of a chain's first block, if it is allocated. */
  ghost function FrontAllocation(b: Block, base: nat): set<(nat, Block)>
  {
    if b.isFree then {} else {(base, b)}
  }

  lemma AllocationsCons(bs: seq<Block>, base: nat)
    requires |bs| > 0
    ensures Allocations(bs, base) == FrontAllocation(bs[0], base) + Allocations(bs[1..], base + bs[0].size)
  {
  }

  /** `p` is the payload address of an allocated block of the chain. */
  ghost predicate IsLivePayload(first: nat, bs: seq<Block>, p: nat)
  {
    exists i :: 0 <= i < |bs| && !bs[i].isFree && first + Offset(bs, i) + HEADER_SIZE == p
  }

  /** Payloads follow their headers; a word-aligned first header keeps every payload aligned. */
  lemma {:induction false} PayloadsAligned(first: nat, bs: seq<Block>, i: nat)
    requires WellFormed(bs) && first % WORD_SIZE == 0
    requires i < |bs|
    ensures (first + Offset(bs, i) + HEADER_SIZE) % WORD_SIZE == 0
  {
    if i > 0 {
      PayloadsAligned(first, bs, i - 1);
      OffsetNext(bs, i - 1);
    }
  }

  /** The payload of block `i` ends before the header of any later block begins. */
  lemma {:induction false} PayloadsDisjoint(first: nat, bs: seq<Block>, i: nat, j: nat)
    requires WellFormed(bs)
    requires i < j < |bs|
    ensures first + Offset(bs, i) + HEADER_SIZE <= first + Offset(bs, i) + bs[i].size <= first + Offset(bs, j)
  {
    OffsetsIncrease(bs, i, j);
  }

  // ---------------------------------------------------------------------------
  // Coalescing

  /** Block `a` absorbs its successor `b`. */
  function Absorb(a: Block, b: Block): Block
  {
    a.(size := a.size + b.size)
  }

  /** The chain after block `i` has absorbed block `i + 1`. */
  function MergeAt(bs: seq<Block>, i: nat): seq<Block>
    requires i + 1 < |bs|
  {
    bs[..i] + [Absorb(bs[i], bs[i + 1])] + bs[i + 2..]
  }

  /**
    One defragmentation pass: compare a block with its successor; if both are
    free the block absorbs the successor and is compared again with its new
    successor, otherwise move on by one block.
  */
  function Coalesce(bs: seq<Block>): seq<Block>
    decreases |bs|
  {
    if |bs| < 2 then bs
    else if bs[0].isFree && bs[1].isFree then Coalesce([Absorb(bs[0], bs[1])] + bs[2..])
    else [bs[0]] + Coalesce(bs[1..])
  }

  /** No two neighbouring blocks are both free. */
  ghost predicate NoAdjacentFree(bs: seq<Block>)
  {
    forall i :: 0 <= i < |bs| - 1 ==> !(bs[i].isFree && bs[i + 1].isFree)
  }

  lemma {:induction false} CoalesceUnfoldMerge(bs: seq<Block>)
    requires |bs| >= 2 && bs[0].isFree && bs[1].isFree
    ensures Coalesce(bs) == Coalesce(MergeAt(bs, 0))
  {
    assert MergeAt(bs, 0) == [Absorb(bs[0], bs[1])] + bs[2..];
  }

  lemma {:induction false} CoalesceHead(bs: seq<Block>)
    requires |bs| >= 1
    ensures |Coalesce(bs)| >= 1
    ensures Coalesce(bs)[0].isFree == bs[0].isFree
    ensures Coalesce(bs)[0].cookie == bs[0].cookie
    decreases |bs|
  {
    if |bs| >= 2 && bs[0].isFree && bs[1].isFree {
      CoalesceHead([Absorb(bs[0], bs[1])] + bs[2..]);
    }
  }

  /** Afterwards no two adjacent blocks are both free. */
  lemma {:induction false} CoalesceMaximal(bs: seq<Block>)
    ensures NoAdjacentFree(Coalesce(bs))
    decreases |bs|
  {
    if |bs| < 2 {
    } else if bs[0].isFree && bs[1].isFree {
      CoalesceMaximal([Absorb(bs[0], bs[1])] + bs[2..]);
    } else {
      CoalesceMaximal(bs[1..]);
      CoalesceHead(bs[1..]);
      var r := Coalesce(bs);
      assert r == [bs[0]] + Coalesce(bs[1..]);
      forall i | 0 <= i < |r| - 1 ensures !(r[i].isFree && r[i + 1].isFree) {
        if i > 0 {
          assert r[i] == Coalesce(bs[1..])[i - 1] && r[i + 1] == Coalesce(bs[1..])[i];
        }
      }
    }
  }

  /** A chain with no adjacent free blocks is left as it is. */
  lemma {:induction false} CoalesceFixpoint(bs: seq<Block>)
    requires NoAdjacentFree(bs)
    ensures Coalesce(bs) == bs
    decreases |bs|
  {
    if |bs| >= 2 {
      assert !(bs[0].isFree && bs[1].isFree);
      assert NoAdjacentFree(bs[1..]) by {
        forall i | 0 <= i < |bs[1..]| - 1 ensures !(bs[1..][i].isFree && bs[1..][i + 1].isFree) {
          assert bs[1..][i] == bs[i + 1] && bs[1..][i + 1] == bs[i + 2];
        }
      }
      CoalesceFixpoint(bs[1..]);
      assert [bs[0]] + bs[1..] == bs;
    }
  }

  /** Running the pass twice is the same as running it once. */
  lemma {:induction false} CoalesceIdempotent(bs: seq<Block>)
    ensures Coalesce(Coalesce(bs)) == Coalesce(bs)
  {
    CoalesceMaximal(bs);
    CoalesceFixpoint(Coalesce(bs));
  }

  /** The chain's total size does not change. */
  lemma {:induction false} CoalesceSum(bs: seq<Block>)
    ensures SumSizes(Coalesce(bs)) == SumSizes(bs)
    ensures |Coalesce(bs)| <= |bs|
    decreases |bs|
  {
    if |bs| < 2 {
    } else if bs[0].isFree && bs[1].isFree {
      var m := [Absorb(bs[0], bs[1])] + bs[2..];
      CoalesceSum(m);
      assert m[1..] == bs[2..];
      assert bs[1..][1..] == bs[2..];
    } else {
      CoalesceSum(bs[1..]);
    }
  }

  /** Allocated blocks keep their address and their header: live payloads stay where they are. */
  lemma {:induction false} CoalesceKeepsAllocations(bs: seq<Block>, base: nat)
    ensures Allocations(Coalesce(bs), base) == Allocations(bs, base)
    decreases |bs|
  {
    if |bs| < 2 {
    } else if bs[0].isFree && bs[1].isFree {
      var m := [Absorb(bs[0], bs[1])] + bs[2..];
      CoalesceKeepsAllocations(m, base);
      assert m[1..] == bs[2..];
      assert bs[1..][1..] == bs[2..];
    } else {
      CoalesceKeepsAllocations(bs[1..], base + bs[0].size);
      assert ([bs[0]] + Coalesce(bs[1..]))[1..] == Coalesce(bs[1..]);
    }
  }

  /** The pass keeps the chain invariant. */
  lemma {:induction false} CoalesceWellFormed(bs: seq<Block>)
    requires WellFormed(bs)
    ensures WellFormed(Coalesce(bs))
    decreases |bs|
  {
    if |bs| < 2 {
    } else if bs[0].isFree && bs[1].isFree {
      var m := [Absorb(bs[0], bs[1])] + bs[2..];
      assert WellFormed(m) by {
        forall i | 0 <= i < |m| - 1 ensures m[i].size % WORD_SIZE == 0 {
          if i > 0 { assert m[i] == bs[i + 1]; }
        }
        forall i | 0 <= i < |m| ensures m[i].size >= HEADER_SIZE && m[i].cookie == Stamped {
          if i > 0 { assert m[i] == bs[i + 1]; }
        }
      }
      CoalesceWellFormed(m);
    } else {
      var t := bs[1..];
      assert WellFormed(t) by {
        forall i | 0 <= i < |t| - 1 ensures t[i].size % WORD_SIZE == 0 {
          assert t[i] == bs[i + 1];
        }
      }
      CoalesceWellFormed(t);
      var r := [bs[0]] + Coalesce(t);
      assert Coalesce(bs) == r;
      forall i | 0 <= i < |r| - 1 ensures r[i].size % WORD_SIZE == 0 {
        if i > 0 { assert r[i] == Coalesce(t)[i - 1]; }
      }
      forall i | 0 <= i < |r| ensures r[i].size >= HEADER_SIZE && r[i].cookie == Stamped {
        if i > 0 { assert r[i] == Coalesce(t)[i - 1]; }
      }
    }
  }

  // ---------------------------------------------------------------------------
  // Allocation

  /** The size rounded up to a whole number of words, as the allocator computes it. */
  function RoundUp(n: nat): (r: nat)
    ensures r % WORD_SIZE == 0 && n <= r < n + WORD_SIZE
  {
    if n % WORD_SIZE != 0 then n + (WORD_SIZE - n % WORD_SIZE) else n
  }

  /** Total block size an allocation of `n` payload bytes needs: rounded payload plus a header. */
  function NeededSize(n: nat): (r: nat)
    ensures r % WORD_SIZE == 0 && r >= HEADER_SIZE
    ensures n + HEADER_SIZE <= r < n + HEADER_SIZE + WORD_SIZE
    ensures n == 0 ==> r == HEADER_SIZE
  {
    RoundUp(n) + HEADER_SIZE
  }

  predicate Fits(b: Block, need: nat)
  {
    b.isFree && b.size >= need
  }

  /** First fit: the index of the first free block, in address order, of at least `need` bytes. */
  function FirstFit(bs: seq<Block>, need: nat): (k: Option<nat>)
    ensures k.Some? ==> k.value < |bs| && Fits(bs[k.value], need)
    ensures k.Some? ==> forall j :: 0 <= j < k.value ==> !Fits(bs[j], need)
    ensures k.None? <==> forall j :: 0 <= j < |bs| ==> !Fits(bs[j], need)
  {
    if bs == [] then None
    else if Fits(bs[0], need) then Some(0)
    else match FirstFit(bs[1..], need)
      case None => None
      case Some(k) => Some(k + 1)
  }

  /** The split rule: a block is split only when the leftover can hold a header and a word. */
  predicate SplitsOff(size: nat, need: nat)
  {
    size - need >= HEADER_SIZE + WORD_SIZE
  }

  /**
    The chain after block `k` is handed out for `need` bytes: marked allocated
    and stamped, and either shrunk to `need` with a new free block covering the
    leftover right after it, or kept whole.
  */
  function Carve(bs: seq<Block>, k: nat, need: nat): seq<Block>
    requires k < |bs| && need <= bs[k].size
  {
    if SplitsOff(bs[k].size, need)
    then bs[..k] + [Block(false, need, Stamped), Block(true, bs[k].size - need, Stamped)] + bs[k + 1..]
    else bs[..k] + [Block(false, bs[k].size, Stamped)] + bs[k + 1..]
  }

  /**
    The outcome of searching chain `bs` (first header at `first`) for `need`
    bytes: the payload address of the first block that fits and the chain
    with that block carved, or no address and the chain as it was.
  */
  function TakeFirst(first: nat, bs: seq<Block>, need: nat): (Option<nat>, seq<Block>)
  {
    match FirstFit(bs, need)
    case None => (None, bs)
    case Some(k) => (Some(first + Offset(bs, k) + HEADER_SIZE), Carve(bs, k, need))
  }

  /** The carved block stays at its address, is allocated and has room for the request. */
  lemma {:induction false} CarveBlock(bs: seq<Block>, k: nat, need: nat)
    requires k < |bs| && need <= bs[k].size
    ensures var r := Carve(bs, k, need);
      && k < |r| && Offset(r, k) == Offset(bs, k)
      && !r[k].isFree && r[k].cookie == Stamped && r[k].size >= need
      && (SplitsOff(bs[k].size, need) ==>
            |r| == |bs| + 1 && r[k].size == need && r[k + 1] == Block(true, bs[k].size - need, Stamped))
      && (!SplitsOff(bs[k].size, need) ==> |r| == |bs| && r[k].size == bs[k].size)
  {
    var r := Carve(bs, k, need);
    assert r[..k] == bs[..k];
  }

  lemma {:induction false} SumSizes3(pre: seq<Block>, mid: seq<Block>, post: seq<Block>)
    ensures SumSizes(pre + mid + post) == SumSizes(pre) + SumSizes(mid) + SumSizes(post)
  {
    SumSizesAppend(pre + mid, post);
    SumSizesAppend(pre, mid);
  }

  /** Carving keeps the total size of the chain. */
  lemma {:induction false} CarveSum(bs: seq<Block>, k: nat, need: nat)
    requires k < |bs| && need <= bs[k].size
    ensures SumSizes(Carve(bs, k, need)) == SumSizes(bs)
  {
    var pre, post := bs[..k], bs[k + 1..];
    assert bs == pre + [bs[k]] + post;
    SumSizes3(pre, [bs[k]], post);
    if SplitsOff(bs[k].size, need) {
      var mid := [Block(false, need, Stamped), Block(true, bs[k].size - need, Stamped)];
      assert mid[1..][1..] == [];
      SumSizes3(pre, mid, post);
    } else {
      var mid := [Block(false, bs[k].size, Stamped)];
      SumSizes3(pre, mid, post);
    }
  }

  /** Carving a free block with a word-multiple `need` of at least a header keeps the chain invariant. */
  lemma {:induction false} CarveWellFormed(bs: seq<Block>, k: nat, need: nat)
    requires WellFormed(bs) && k < |bs| && Fits(bs[k], need)
    requires need % WORD_SIZE == 0 && need >= HEADER_SIZE
    ensures WellFormed(Carve(bs, k, need))
  {
    var r := Carve(bs, k, need);
    if SplitsOff(bs[k].size, need) {
      forall i | 0 <= i < |r| ensures r[i].size >= HEADER_SIZE && r[i].cookie == Stamped {
        if i < k { assert r[i] == bs[i]; } else if i > k + 1 { assert r[i] == bs[i - 1]; }
      }
      forall i | 0 <= i < |r| - 1 ensures r[i].size % WORD_SIZE == 0 {
        if i < k { assert r[i] == bs[i]; } else if i > k + 1 { assert r[i] == bs[i - 1]; }
      }
    } else {
      forall i | 0 <= i < |r| ensures r[i].size >= HEADER_SIZE && r[i].cookie == Stamped {
        if i != k { assert r[i] == bs[i]; }
      }
      forall i | 0 <= i < |r| - 1 ensures r[i].size % WORD_SIZE == 0 {
        if i != k { assert r[i] == bs[i]; }
      }
    }
  }

  /** Carving adds exactly the carved block to the allocations; every other allocation is untouched. */
  lemma {:induction false} CarveAllocations(bs: seq<Block>, k: nat, need: nat, base: nat)
    requires k < |bs| && bs[k].isFree && need <= bs[k].size
    ensures Allocations(Carve(bs, k, need), base)
         == Allocations(bs, base) + {(base + Offset(bs, k), Carve(bs, k, need)[k])}
    decreases k
  {
    if k == 0 {
      CarveFrontAllocations(bs, need, base);
    } else {
      var r, r' := Carve(bs, k, need), Carve(bs[1..], k - 1, need);
      var base' := base + bs[0].size;
      CarveAllocations(bs[1..], k - 1, need, base');
      CarveTail(bs, k, need);
      OffsetTail(bs, k);
      var x := (base + Offset(bs, k), r[k]);
      assert x == (base' + Offset(bs[1..], k - 1), r'[k - 1]);
      AllocationsCons(r, base);
      AllocationsCons(bs, base);
      var head, rest := FrontAllocation(bs[0], base), Allocations(bs[1..], base');
      assert head + (rest + {x}) == (head + rest) + {x};
    }
  }

  /** Carving past the first block keeps the first block in front of the carved rest. */
  lemma CarveTail(bs: seq<Block>, k: nat, need: nat)
    requires 0 < k < |bs| && need <= bs[k].size
    ensures Carve(bs, k, need) == [bs[0]] + Carve(bs[1..], k - 1, need)
  {
    var tail := bs[1..];
    assert tail[k - 1] == bs[k];
    assert bs[..k] == [bs[0]] + tail[..k - 1];
    assert bs[k + 1..] == tail[k..];
  }

  /** CarveAllocations for the first block of the chain. */
  lemma CarveFrontAllocations(bs: seq<Block>, need: nat, base: nat)
    requires 0 < |bs| && bs[0].isFree && need <= bs[0].size
    ensures Allocations(Carve(bs, 0, need), base)
         == Allocations(bs, base) + {(base + Offset(bs, 0), Carve(bs, 0, need)[0])}
  {
    var r := Carve(bs, 0, need);
    assert Offset(bs, 0) == 0;
    assert Allocations(bs, base) == Allocations(bs[1..], base + bs[0].size);
    if SplitsOff(bs[0].size, need) {
      assert r[1..][1..] == bs[1..];
      assert r[1..][0].isFree;
      assert Allocations(r[1..], base + need) == Allocations(bs[1..], base + bs[0].size);
    } else {
      assert r[1..] == bs[1..];
    }
  }

  /** A fitting block with no fitting block before it is the first fit. */
  lemma {:induction false} FirstFitAt(bs: seq<Block>, need: nat, k: nat)
    requires k < |bs| && Fits(bs[k], need)
    requires forall j :: 0 <= j < k ==> !Fits(bs[j], need)
    ensures FirstFit(bs, need) == Some(k)
  {
  }

  /**
    What an allocation of `n` bytes hands out from block `k`: a well-formed
    chain of the same total size, in which the payload right after block `k`'s
    header is live, word-aligned and at least `n` bytes long.
  */
  lemma {:induction false} CarveOutcome(first: nat, bs: seq<Block>, k: nat, n: nat)
    requires WellFormed(bs) && first % WORD_SIZE == 0
    requires k < |bs| && Fits(bs[k], NeededSize(n))
    ensures var r, p := Carve(bs, k, NeededSize(n)), first + Offset(bs, k) + HEADER_SIZE;
      && WellFormed(r) && SumSizes(r) == SumSizes(bs)
      && IsLivePayload(first, r, p) && p % WORD_SIZE == 0
      && r[BlockOf(first, r, p)].size >= n + HEADER_SIZE
  {
    var need := NeededSize(n);
    var r := Carve(bs, k, need);
    CarveWellFormed(bs, k, need);
    CarveSum(bs, k, need);
    CarveBlock(bs, k, need);
    PayloadsAligned(first, r, k);
    BlockOfUnique(first, r, k);
  }

  /**
    The search-and-carve step of VsaAlloc on a well-formed chain, for every
    request `n` and its outcome `(p, r)`: the chain stays well formed and
    keeps its total size; the request fails exactly when no block fits, and
    then the chain is unchanged; otherwise it hands out a live, word-aligned
    payload of at least `n` bytes, and the allocated blocks are the old ones
    plus the new one.
  */
  lemma {:induction false} TakeFirstOutcome(first: nat, bs: seq<Block>, n: nat, p: Option<nat>, r: seq<Block>)
    requires WellFormed(bs) && first % WORD_SIZE == 0
    requires (p, r) == TakeFirst(first, bs, NeededSize(n))
    ensures WellFormed(r) && SumSizes(r) == SumSizes(bs)
    ensures p == None <==> forall j :: 0 <= j < |bs| ==> !Fits(bs[j], NeededSize(n))
    ensures p == None ==> r == bs
    ensures p.Some? ==>
      && IsLivePayload(first, r, p.value) && p.value % WORD_SIZE == 0 && p.value >= HEADER_SIZE
      && r[BlockOf(first, r, p.value)].size >= n + HEADER_SIZE
      && Allocations(r, first) == Allocations(bs, first) + {(p.value - HEADER_SIZE, r[BlockOf(first, r, p.value)])}
  {
    var need := NeededSize(n);
    if FirstFit(bs, need).Some? {
      var k := FirstFit(bs, need).value;
      assert p == Some(first + Offset(bs, k) + HEADER_SIZE) && r == Carve(bs, k, need);
      GrantedBlock(first, bs, k, n, p.value, r);
    }
  }

  /** The granted case of TakeFirstOutcome, for the block `k` that first fit picks. */
  lemma GrantedBlock(first: nat, bs: seq<Block>, k: nat, n: nat, q: nat, r: seq<Block>)
    requires WellFormed(bs) && first % WORD_SIZE == 0
    requires k < |bs| && Fits(bs[k], NeededSize(n))
    requires q == first + Offset(bs, k) + HEADER_SIZE && r == Carve(bs, k, NeededSize(n))
    ensures WellFormed(r) && SumSizes(r) == SumSizes(bs)
    ensures IsLivePayload(first, r, q) && q % WORD_SIZE == 0 && q >= HEADER_SIZE
    ensures BlockOf(first, r, q) == k && r[k].size >= n + HEADER_SIZE
    ensures Allocations(r, first) == Allocations(bs, first) + {(q - HEADER_SIZE, r[k])}
  {
    var need := NeededSize(n);
    CarveBlock(bs, k, need);
    CarveSum(bs, k, need);
    CarveWellFormed(bs, k, need);
    PayloadsAligned(first, bs, k);
    CarveAllocationsAt(bs, k, need, first, q, r);
    BlockOfAt(first, r, k, q);
  }

  /** CarveAllocations with the payload address and the carved chain named. */
  lemma CarveAllocationsAt(bs: seq<Block>, k: nat, need: nat, base: nat, q: nat, r: seq<Block>)
    requires k < |bs| && bs[k].isFree && need <= bs[k].size
    requires q == base + Offset(bs, k) + HEADER_SIZE && r == Carve(bs, k, need)
    ensures k < |r| && Allocations(r, base) == Allocations(bs, base) + {(q - HEADER_SIZE, r[k])}
  {
    CarveBlock(bs, k, need);
    CarveAllocations(bs, k, need, base);
  }

  /** BlockOfUnique with the payload address named. */
  lemma BlockOfAt(first: nat, bs: seq<Block>, k: nat, q: nat)
    requires SizesAtLeastHeader(bs) && k < |bs| && !bs[k].isFree
    requires q == first + Offset(bs, k) + HEADER_SIZE
    ensures IsLivePayload(first, bs, q) && BlockOf(first, bs, q) == k
  {
    BlockOfUnique(first, bs, k);
  }

  /** The payload handed out from block `k` belongs to block `k` of the carved chain. */
  lemma CarvedBlockOf(first: nat, bs: seq<Block>, k: nat, need: nat)
    requires WellFormed(bs) && k < |bs| && Fits(bs[k], need)
    requires need % WORD_SIZE == 0 && need >= HEADER_SIZE
    ensures var r := Carve(bs, k, need);
      k < |r| && IsLivePayload(first, r, first + Offset(bs, k) + HEADER_SIZE)
      && BlockOf(first, r, first + Offset(bs, k) + HEADER_SIZE) == k
  {
    var r := Carve(bs, k, need);
    CarveBlock(bs, k, need);
    CarveWellFormed(bs, k, need);
    BlockOfUnique(first, r, k);
  }

  /** Block `k` keeps its size and takes the flag and cookie of `b`. */
  function SetBlock(bs: seq<Block>, k: nat, b: Block): seq<Block>
    requires k < |bs|
  {
    bs[k := b]
  }

  /** Block `k` shrinks to `need` bytes and a free block covering the rest follows it. */
  function SplitAt(bs: seq<Block>, k: nat, need: nat): seq<Block>
    requires k < |bs| && need <= bs[k].size
  {
    bs[..k] + [bs[k].(size := need), Block(true, bs[k].size - need, Stamped)] + bs[k + 1..]
  }

  /** Carving is marking the block allocated and then, when the split rule allows, splitting it. */
  lemma {:induction false} CarveIsMarkThenSplit(bs: seq<Block>, k: nat, need: nat)
    requires k < |bs| && need <= bs[k].size
    ensures var m := SetBlock(bs, k, Block(false, bs[k].size, Stamped));
      Carve(bs, k, need) == if SplitsOff(bs[k].size, need) then SplitAt(m, k, need) else m
  {
    var m := SetBlock(bs, k, Block(false, bs[k].size, Stamped));
    assert m[..k] == bs[..k] && m[k + 1..] == bs[k + 1..];
    if !SplitsOff(bs[k].size, need) {
      assert m == bs[..k] + [m[k]] + bs[k + 1..];
    }
  }

  // ---------------------------------------------------------------------------
  // How each in-place header update keeps the chain laid out

  /** Changing one block without changing its size keeps every offset. */
  lemma {:induction false} OffsetsSetBlock(bs: seq<Block>, k: nat, b: Block, j: nat)
    requires k < |bs| && b.size == bs[k].size && j <= |bs|
    ensures Offset(SetBlock(bs, k, b), j) == Offset(bs, j)
  {
    assert SetBlock(bs, k, b) == bs[..k] + [b] + bs[k + 1..];
    assert bs[k..k + 1] == [bs[k]];
    OffsetsOfReplace(bs, k, 1, [b], j);
  }

  /** Rewriting the flag and cookie of one header changes exactly that block of the chain. */
  lemma {:induction false} LaidSetBlock(mem: map<nat, Header>, first: nat, bs: seq<Block>, k: nat, b: Block)
    requires Laid(mem, first, bs) && SizesAtLeastHeader(bs)
    requires k < |bs| && b.size == bs[k].size
    ensures var a := first + Offset(bs, k);
      Laid(mem[a := mem[a].(isFree := b.isFree, cookie := b.cookie)], first, SetBlock(bs, k, b))
  {
    var a := first + Offset(bs, k);
    var mem' := mem[a := mem[a].(isFree := b.isFree, cookie := b.cookie)];
    var bs' := SetBlock(bs, k, b);
    forall j | 0 <= j < |bs'|
      ensures first + Offset(bs', j) in mem' && mem'[first + Offset(bs', j)] == HeaderAt(first, bs', j)
    {
      OffsetsSetBlock(bs, k, b, j);
      OffsetsSetBlock(bs, k, b, j + 1);
      var aj := first + Offset(bs, j);
      assert mem[aj] == HeaderAt(first, bs, j);
      if j != k {
        OffsetsDistinct(bs, j, k);
        assert mem'[aj] == mem[aj];
        assert bs'[j] == bs[j];
      } else {
        assert mem'[aj] == mem[a].(isFree := b.isFree, cookie := b.cookie);
      }
    }
  }

  /** Merging keeps the offsets before the merged block and shifts the later ones down by one index. */
  lemma {:induction false} OffsetsMerge(bs: seq<Block>, i: nat, j: nat)
    requires i + 1 < |bs| && j < |bs|
    ensures j <= i ==> Offset(MergeAt(bs, i), j) == Offset(bs, j)
    ensures i + 1 <= j ==> Offset(MergeAt(bs, i), j) == Offset(bs, j + 1)
  {
    var mid := [Absorb(bs[i], bs[i + 1])];
    assert bs[i..i + 2] == [bs[i], bs[i + 1]];
    assert SumSizes(mid) == SumSizes(bs[i..i + 2]) by {
      assert [bs[i], bs[i + 1]][1..][1..] == [];
    }
    OffsetsOfReplace(bs, i, 2, mid, j);
  }

  /** Splitting keeps the offsets up to the split block and shifts the later ones up by one index. */
  lemma {:induction false} OffsetsSplit(bs: seq<Block>, k: nat, need: nat, j: nat)
    requires k < |bs| && need <= bs[k].size && j <= |bs| + 1
    ensures j <= k ==> Offset(SplitAt(bs, k, need), j) == Offset(bs, j)
    ensures j == k + 1 ==> Offset(SplitAt(bs, k, need), j) == Offset(bs, k) + need
    ensures k + 2 <= j ==> Offset(SplitAt(bs, k, need), j) == Offset(bs, j - 1)
  {
    var mid := [bs[k].(size := need), Block(true, bs[k].size - need, Stamped)];
    assert bs[k..k + 1] == [bs[k]];
    assert SumSizes(mid) == SumSizes(bs[k..k + 1]) by {
      assert mid[1..][1..] == [];
    }
    if j == k + 1 {
      OffsetsOfReplace(bs, k, 1, mid, k);
      OffsetNext(SplitAt(bs, k, need), k);
    } else {
      OffsetsOfReplace(bs, k, 1, mid, j);
    }
  }

  /** The memory after header `c` absorbs header `n`: size added, link copied, absorbed cookie cleared. */
  function MergeMem(mem: map<nat, Header>, c: nat, n: nat): map<nat, Header>
    requires c in mem && n in mem
  {
    mem[c := mem[c].(blockSize := mem[c].blockSize + mem[n].blockSize, next := mem[n].next)]
       [n := mem[n].(cookie := Cleared)]
  }

  lemma {:induction false} LaidMergeAt(mem: map<nat, Header>, first: nat, bs: seq<Block>, i: nat, j: nat)
    requires Laid(mem, first, bs) && SizesAtLeastHeader(bs)
    requires i + 1 < |bs| && j < |bs| - 1
    ensures first + Offset(bs, i) in mem && first + Offset(bs, i + 1) in mem
    ensures var mem', bs' := MergeMem(mem, first + Offset(bs, i), first + Offset(bs, i + 1)), MergeAt(bs, i);
      first + Offset(bs', j) in mem' && mem'[first + Offset(bs', j)] == HeaderAt(first, bs', j)
  {
    var c, n := first + Offset(bs, i), first + Offset(bs, i + 1);
    assert mem[c] == HeaderAt(first, bs, i);
    assert mem[n] == HeaderAt(first, bs, i + 1);
    OffsetsDistinct(bs, i, i + 1);
    var mem', bs' := MergeMem(mem, c, n), MergeAt(bs, i);
    OffsetsMerge(bs, i, j);
    if j < i {
      var aj := first + Offset(bs, j);
      assert mem[aj] == HeaderAt(first, bs, j);
      OffsetsDistinct(bs, j, i);
      OffsetsDistinct(bs, j, i + 1);
      assert mem'[aj] == mem[aj];
      assert bs'[j] == bs[j];
    } else if j > i {
      var aj := first + Offset(bs, j + 1);
      assert mem[aj] == HeaderAt(first, bs, j + 1);
      OffsetsDistinct(bs, j + 1, i);
      OffsetsDistinct(bs, j + 1, i + 1);
      assert mem'[aj] == mem[aj];
      assert bs'[j] == bs[j + 1];
    } else {
      OffsetNext(bs, i);
      assert bs'[i] == Absorb(bs[i], bs[i + 1]);
      assert mem'[c] == mem[c].(blockSize := mem[c].blockSize + mem[n].blockSize, next := mem[n].next);
    }
  }

  /** Header `i` absorbing header `i + 1` lays out the merged chain. */
  lemma {:induction false} LaidMerge(mem: map<nat, Header>, first: nat, bs: seq<Block>, i: nat)
    requires Laid(mem, first, bs) && SizesAtLeastHeader(bs)
    requires i + 1 < |bs|
    ensures first + Offset(bs, i) in mem && first + Offset(bs, i + 1) in mem
    ensures Laid(MergeMem(mem, first + Offset(bs, i), first + Offset(bs, i + 1)), first, MergeAt(bs, i))
    ensures SizesAtLeastHeader(MergeAt(bs, i))
  {
    assert mem[first + Offset(bs, i)] == HeaderAt(first, bs, i);
    assert mem[first + Offset(bs, i + 1)] == HeaderAt(first, bs, i + 1);
    var bs' := MergeAt(bs, i);
    assert |bs'| == |bs| - 1;
    forall j | 0 <= j < |bs'| ensures bs'[j].size >= HEADER_SIZE {
      if j < i { assert bs'[j] == bs[j]; } else if j > i { assert bs'[j] == bs[j + 1]; }
    }
    forall j | 0 <= j < |bs'|
      ensures var mem' := MergeMem(mem, first + Offset(bs, i), first + Offset(bs, i + 1));
        first + Offset(bs', j) in mem' && mem'[first + Offset(bs', j)] == HeaderAt(first, bs', j)
    {
      LaidMergeAt(mem, first, bs, i, j);
    }
  }

  /** The memory after writing a split of block `k` at `need` bytes. */
  function SplitMem(mem: map<nat, Header>, c: nat, need: nat, rest: nat): map<nat, Header>
    requires c in mem
  {
    mem[c := mem[c].(next := Some(c + need), blockSize := need)]
       [c + need := Header(true, mem[c].next, rest, Stamped)]
  }

  lemma {:induction false} LaidSplitAt(mem: map<nat, Header>, first: nat, bs: seq<Block>, k: nat, need: nat, j: nat)
    requires Laid(mem, first, bs) && SizesAtLeastHeader(bs)
    requires k < |bs| && HEADER_SIZE <= need && SplitsOff(bs[k].size, need)
    requires j < |bs| + 1
    ensures var c := first + Offset(bs, k);
      var mem', bs' := SplitMem(mem, c, need, bs[k].size - need), SplitAt(bs, k, need);
      first + Offset(bs', j) in mem' && mem'[first + Offset(bs', j)] == HeaderAt(first, bs', j)
  {
    var c := first + Offset(bs, k);
    var r := c + need;
    var mem', bs' := SplitMem(mem, c, need, bs[k].size - need), SplitAt(bs, k, need);
    assert mem[c] == HeaderAt(first, bs, k);
    OffsetsSplit(bs, k, need, j);
    OffsetsSplit(bs, k, need, j + 1);
    if j < k {
      var aj := first + Offset(bs, j);
      assert mem[aj] == HeaderAt(first, bs, j);
      OffsetsIncrease(bs, j, k);
      assert mem'[aj] == mem[aj];
      assert bs'[j] == bs[j];
    } else if j > k + 1 {
      var aj := first + Offset(bs, j - 1);
      assert mem[aj] == HeaderAt(first, bs, j - 1);
      OffsetsIncrease(bs, k, j - 1);
      assert mem'[aj] == mem[aj];
      assert bs'[j] == bs[j - 1];
    } else if j == k {
      assert bs'[k] == bs[k].(size := need);
      assert mem'[c] == mem[c].(next := Some(c + need), blockSize := need);
    } else {
      assert bs'[k + 1] == Block(true, bs[k].size - need, Stamped);
      assert mem'[r] == Header(true, mem[c].next, bs[k].size - need, Stamped);
    }
  }

  /** Writing the split: header `k` shrinks and links to a new free header that links to the old successor. */
  lemma {:induction false} LaidSplit(mem: map<nat, Header>, first: nat, bs: seq<Block>, k: nat, need: nat)
    requires Laid(mem, first, bs) && SizesAtLeastHeader(bs)
    requires k < |bs| && HEADER_SIZE <= need && SplitsOff(bs[k].size, need)
    ensures first + Offset(bs, k) in mem
    ensures Laid(SplitMem(mem, first + Offset(bs, k), need, bs[k].size - need), first, SplitAt(bs, k, need))
    ensures SizesAtLeastHeader(SplitAt(bs, k, need))
  {
    assert mem[first + Offset(bs, k)] == HeaderAt(first, bs, k);
    var bs' := SplitAt(bs, k, need);
    assert |bs'| == |bs| + 1;
    forall j | 0 <= j < |bs'| ensures bs'[j].size >= HEADER_SIZE {
      if j < k { assert bs'[j] == bs[j]; } else if j > k + 1 { assert bs'[j] == bs[j - 1]; }
    }
    forall j | 0 <= j < |bs'|
      ensures var mem' := SplitMem(mem, first + Offset(bs, k), need, bs[k].size - need);
        first + Offset(bs', j) in mem' && mem'[first + Offset(bs', j)] == HeaderAt(first, bs', j)
    {
      LaidSplitAt(mem, first, bs, k, need, j);
    }
  }

  /** Absorbing block `i + 1` removes exactly its header address from the live ones. */
  lemma {:induction false} HeaderAddressesMerge(first: nat, bs: seq<Block>, i: nat)
    requires SizesAtLeastHeader(bs) && i + 1 < |bs|
    ensures HeaderAddresses(first, MergeAt(bs, i))
         == HeaderAddresses(first, bs) - {first + Offset(bs, i + 1)}
  {
    var bs' := MergeAt(bs, i);
    var n := first + Offset(bs, i + 1);
    forall a | a in HeaderAddresses(first, bs') ensures a in HeaderAddresses(first, bs) && a != n {
      var j := HeaderIndex(first, bs', a);
      OffsetsMerge(bs, i, j);
      if j <= i {
        OffsetsDistinct(bs, j, i + 1);
        HeaderAddressIn(first, bs, j);
      } else {
        OffsetsDistinct(bs, j + 1, i + 1);
        HeaderAddressIn(first, bs, j + 1);
      }
    }
    forall a | a in HeaderAddresses(first, bs) && a != n ensures a in HeaderAddresses(first, bs') {
      var j := HeaderIndex(first, bs, a);
      if j <= i {
        OffsetsMerge(bs, i, j);
        HeaderAddressIn(first, bs', j);
      } else {
        assert j != i + 1;
        OffsetsMerge(bs, i, j - 1);
        HeaderAddressIn(first, bs', j - 1);
      }
    }
  }

  /** Changing a block's flag or cookie keeps the live header addresses. */
  lemma {:induction false} HeaderAddressesSetBlock(first: nat, bs: seq<Block>, k: nat, b: Block)
    requires k < |bs| && b.size == bs[k].size
    ensures HeaderAddresses(first, SetBlock(bs, k, b)) == HeaderAddresses(first, bs)
  {
    var bs' := SetBlock(bs, k, b);
    forall a | a in HeaderAddresses(first, bs') ensures a in HeaderAddresses(first, bs) {
      var j := HeaderIndex(first, bs', a);
      OffsetsSetBlock(bs, k, b, j);
      HeaderAddressIn(first, bs, j);
    }
    forall a | a in HeaderAddresses(first, bs) ensures a in HeaderAddresses(first, bs') {
      var j := HeaderIndex(first, bs, a);
      OffsetsSetBlock(bs, k, b, j);
      HeaderAddressIn(first, bs', j);
    }
  }

  /** Splitting block `k` adds exactly the new header, `need` bytes after block `k`'s. */
  lemma {:induction false} HeaderAddressesSplit(first: nat, bs: seq<Block>, k: nat, need: nat)
    requires k < |bs| && need <= bs[k].size
    ensures HeaderAddresses(first, SplitAt(bs, k, need))
         == HeaderAddresses(first, bs) + {first + Offset(bs, k) + need}
  {
    var bs' := SplitAt(bs, k, need);
    var r := first + Offset(bs, k) + need;
    forall a | a in HeaderAddresses(first, bs') ensures a in HeaderAddresses(first, bs) || a == r {
      var j := HeaderIndex(first, bs', a);
      OffsetsSplit(bs, k, need, j);
      if j <= k {
        HeaderAddressIn(first, bs, j);
      } else if k + 2 <= j {
        HeaderAddressIn(first, bs, j - 1);
      }
    }
    OffsetsSplit(bs, k, need, k + 1);
    HeaderAddressIn(first, bs', k + 1);
    forall a | a in HeaderAddresses(first, bs) ensures a in HeaderAddresses(first, bs') {
      var j := HeaderIndex(first, bs, a);
      if j <= k {
        OffsetsSplit(bs, k, need, j);
        HeaderAddressIn(first, bs', j);
      } else {
        OffsetsSplit(bs, k, need, j + 1);
        HeaderAddressIn(first, bs', j + 1);
      }
    }
  }

  /** When blocks `i` and `i + 1` are both free, the pass from `i` on is the pass over the merged chain. */
  lemma {:induction false} CoalesceFromMerge(bs: seq<Block>, i: nat)
    requires i + 1 < |bs| && bs[i].isFree && bs[i + 1].isFree
    ensures MergeAt(bs, i)[..i] == bs[..i]
    ensures Coalesce(bs[i..]) == Coalesce(MergeAt(bs, i)[i..])
  {
    var t := bs[i..];
    assert t[0] == bs[i] && t[1] == bs[i + 1] && t[2..] == bs[i + 2..];
    assert MergeAt(bs, i)[i..] == [Absorb(bs[i], bs[i + 1])] + bs[i + 2..];
  }

  /** Otherwise the pass keeps block `i` and moves on to `i + 1`. */
  lemma {:induction false} CoalesceFromAdvance(bs: seq<Block>, i: nat)
    requires i + 1 < |bs| && !(bs[i].isFree && bs[i + 1].isFree)
    ensures bs[..i] + Coalesce(bs[i..]) == bs[..i + 1] + Coalesce(bs[i + 1..])
  {
    var t := bs[i..];
    assert t[0] == bs[i] && t[1] == bs[i + 1] && t[1..] == bs[i + 1..];
    assert bs[..i + 1] == bs[..i] + [bs[i]];
  }

  /**
    Merging two free neighbours ahead of a pass does not change what the pass
    produces: coalescing eagerly (on free) or lazily (before a search) gives the
    same chain.
  */
  lemma {:induction false} CoalesceAbsorbs(bs: seq<Block>, i: nat)
    requires i + 1 < |bs| && bs[i].isFree && bs[i + 1].isFree
    ensures Coalesce(MergeAt(bs, i)) == Coalesce(bs)
    decreases |bs|
  {
    var m := MergeAt(bs, i);
    if i == 0 {
      assert m == [Absorb(bs[0], bs[1])] + bs[2..];
    } else if bs[0].isFree && bs[1].isFree {
      var bs' := [Absorb(bs[0], bs[1])] + bs[2..];
      if i == 1 {
        assert m[0] == bs[0] && m[1] == Absorb(bs[1], bs[2]) && m[2..] == bs[3..];
        assert bs'[0] == Absorb(bs[0], bs[1]) && bs'[1] == bs[2] && bs'[2..] == bs[3..];
        assert Absorb(bs'[0], bs'[1]) == Absorb(m[0], m[1]);
      } else {
        CoalesceAbsorbs(bs', i - 1);
        MergeAtFront(bs, i);
      }
    } else {
      CoalesceAbsorbs(bs[1..], i - 1);
      MergeAtCons(bs, i);
    }
  }

  /** A merge past the first block leaves the first block in front of the merged rest. */
  lemma MergeAtCons(bs: seq<Block>, i: nat)
    requires 1 <= i && i + 1 < |bs|
    ensures MergeAt(bs, i) == [bs[0]] + MergeAt(bs[1..], i - 1)
  {
    var m, n := MergeAt(bs, i), [bs[0]] + MergeAt(bs[1..], i - 1);
    assert |m| == |n|;
    forall j | 0 <= j < |m| ensures m[j] == n[j] {
      if j == 0 {
      } else if j < i {
        assert m[j] == bs[j] && n[j] == bs[1..][j - 1];
      } else if j == i {
      } else {
        assert m[j] == bs[j + 1] && n[j] == bs[1..][j];
      }
    }
  }

  /** Merging the first two blocks of a chain merged further on is merging further on in the shorter chain. */
  lemma MergeAtFront(bs: seq<Block>, i: nat)
    requires 2 <= i && i + 1 < |bs|
    ensures var m := MergeAt(bs, i);
      [Absorb(m[0], m[1])] + m[2..] == MergeAt([Absorb(bs[0], bs[1])] + bs[2..], i - 1)
  {
    var m := MergeAt(bs, i);
    var bs' := [Absorb(bs[0], bs[1])] + bs[2..];
    var x, y := [Absorb(m[0], m[1])] + m[2..], MergeAt(bs', i - 1);
    assert m[0] == bs[0] && m[1] == bs[1];
    assert |x| == |y|;
    forall j | 0 <= j < |x| ensures x[j] == y[j] {
      if j == 0 {
      } else if j < i - 1 {
        assert x[j] == m[j + 1] == bs[j + 1] && y[j] == bs'[j] == bs[j + 1];
      } else if j == i - 1 {
        assert x[j] == m[i] && y[j] == Absorb(bs'[i - 1], bs'[i]);
      } else {
        assert x[j] == m[j + 1] == bs[j + 2] && y[j] == bs'[j + 1] == bs[j + 2];
      }
    }
  }

  // ---------------------------------------------------------------------------
  // Freeing

  /** The chain after block `k` is marked free; size, cookie and every other block are kept. */
  function FreeAt(bs: seq<Block>, k: nat): seq<Block>
    requires k < |bs|
  {
    SetBlock(bs, k, bs[k].(isFree := true))
  }

  /** The index of the allocated block whose payload starts at `p`. */
  ghost function BlockOf(first: nat, bs: seq<Block>, p: nat): (k: nat)
    requires IsLivePayload(first, bs, p)
    ensures k < |bs| && !bs[k].isFree && first + Offset(bs, k) + HEADER_SIZE == p
  {
    var k :| 0 <= k < |bs| && !bs[k].isFree && first + Offset(bs, k) + HEADER_SIZE == p; k
  }

  /** Payload addresses identify their block. */
  lemma {:induction false} BlockOfUnique(first: nat, bs: seq<Block>, k: nat)
    requires SizesAtLeastHeader(bs) && k < |bs| && !bs[k].isFree
    ensures IsLivePayload(first, bs, first + Offset(bs, k) + HEADER_SIZE)
    ensures BlockOf(first, bs, first + Offset(bs, k) + HEADER_SIZE) == k
  {
    var j := BlockOf(first, bs, first + Offset(bs, k) + HEADER_SIZE);
    if j != k {
      OffsetsDistinct(bs, j, k);
    }
  }

  /**
    Freeing a block just carved restores the chain up to coalescing: the next
    pass gives back exactly the chain the carve started from.
  */
  lemma {:induction false} CarveFreeRestores(bs: seq<Block>, k: nat, need: nat)
    requires k < |bs| && bs[k].isFree && bs[k].cookie == Stamped && need <= bs[k].size
    ensures k < |Carve(bs, k, need)|
    ensures Coalesce(FreeAt(Carve(bs, k, need), k)) == Coalesce(bs)
  {
    CarveBlock(bs, k, need);
    var f := FreeAt(Carve(bs, k, need), k);
    if SplitsOff(bs[k].size, need) {
      assert f == bs[..k] + [Block(true, need, Stamped), Block(true, bs[k].size - need, Stamped)] + bs[k + 1..];
      assert f[k].isFree && f[k + 1].isFree;
      assert MergeAt(f, k) == bs;
      CoalesceAbsorbs(f, k);
    } else {
      assert f == bs;
    }
  }

  /**
    Allocation followed by the freeing of what it granted, on a coalesced
    well-formed chain `cs`: the next pass gives back `cs`, whether the
    request was granted or not.
  */
  lemma {:induction false} AllocFreeRestores(first: nat, cs: seq<Block>, n: nat, p: Option<nat>, r: seq<Block>)
    requires WellFormed(cs) && first % WORD_SIZE == 0 && Coalesce(cs) == cs
    requires (p, r) == TakeFirst(first, Coalesce(cs), NeededSize(n))
    ensures p.Some? ==> IsLivePayload(first, r, p.value) && Coalesce(FreeAt(r, BlockOf(first, r, p.value))) == cs
    ensures p.None? ==> Coalesce(r) == cs
  {
    var need := NeededSize(n);
    if FirstFit(cs, need).Some? {
      var k := FirstFit(cs, need).value;
      assert p == Some(first + Offset(cs, k) + HEADER_SIZE) && r == Carve(cs, k, need);
      GrantThenFree(first, cs, k, need, p.value, r);
    }
  }

  /** Freeing the payload `q` just handed out from block `k` undoes the hand-out after the next pass. */
  lemma GrantThenFree(first: nat, bs: seq<Block>, k: nat, need: nat, q: nat, r: seq<Block>)
    requires WellFormed(bs) && k < |bs| && Fits(bs[k], need)
    requires need % WORD_SIZE == 0 && need >= HEADER_SIZE
    requires q == first + Offset(bs, k) + HEADER_SIZE && r == Carve(bs, k, need)
    ensures IsLivePayload(first, r, q) && Coalesce(FreeAt(r, BlockOf(first, r, q))) == Coalesce(bs)
  {
    CarvedBlockOf(first, bs, k, need);
    CarveFreeRestores(bs, k, need);
  }

  // ---------------------------------------------------------------------------
  // Largest free chunk

  /**
    One step of the largest-chunk scan.  The source compares the block's TOTAL
    size with the running maximum, which holds a PAYLOAD size, and then stores
    the block's payload size.
  */
  function ScanStep(largest: nat, b: Block): nat
    requires b.size >= HEADER_SIZE
  {
    if b.isFree && b.size > largest then b.size - HEADER_SIZE else largest
  }

  /** The scan over the chain in address order, starting from 0. */
  function LargestScan(bs: seq<Block>): nat
    requires SizesAtLeastHeader(bs)
  {
    if bs == [] then 0 else ScanStep(LargestScan(bs[..|bs| - 1]), bs[|bs| - 1])
  }

  function Payload(b: Block): nat
    requires b.size >= HEADER_SIZE
  {
    b.size - HEADER_SIZE
  }

  /**
    The result is 0 when no block is free; otherwise it is the payload size of
    some free block (so it never exceeds the largest free payload).
  */
  lemma {:induction false} LargestScanIsFreePayload(bs: seq<Block>)
    requires SizesAtLeastHeader(bs)
    ensures (forall j :: 0 <= j < |bs| ==> !bs[j].isFree) ==> LargestScan(bs) == 0
    ensures (exists j :: 0 <= j < |bs| && bs[j].isFree) ==>
      exists j :: 0 <= j < |bs| && bs[j].isFree && LargestScan(bs) == Payload(bs[j])
    decreases |bs|
  {
    if bs != [] {
      var init := bs[..|bs| - 1];
      assert SizesAtLeastHeader(init) by {
        forall j | 0 <= j < |init| ensures init[j].size >= HEADER_SIZE { assert init[j] == bs[j]; }
      }
      LargestScanIsFreePayload(init);
      if exists j :: 0 <= j < |init| && init[j].isFree {
        var j :| 0 <= j < |init| && init[j].isFree && LargestScan(init) == Payload(init[j]);
        assert bs[j] == init[j];
      } else {
        forall j | 0 <= j < |init| ensures !bs[j].isFree { assert init[j] == bs[j]; }
      }
    }
  }

  /** With exactly one free block the scan reports exactly that block's payload. */
  lemma {:induction false} LargestScanSingleFree(bs: seq<Block>, k: nat)
    requires SizesAtLeastHeader(bs)
    requires k < |bs| && bs[k].isFree
    requires forall j :: 0 <= j < |bs| && j != k ==> !bs[j].isFree
    ensures LargestScan(bs) == Payload(bs[k])
  {
    LargestScanIsFreePayload(bs);
  }

  /**
    The scan can report less than the largest free payload: with free blocks of
    104 and 96 bytes separated by an allocated one, the first sets the running
    value to 72, the second (96 > 72) lowers it to 64.
  */
  lemma {:induction false} LargestScanUnderReports()
    ensures var bs := [Block(true, 104, Stamped), Block(false, 40, Stamped), Block(true, 96, Stamped)];
      LargestScan(bs) == 64 && Payload(bs[0]) == 72
  {
    var bs := [Block(true, 104, Stamped), Block(false, 40, Stamped), Block(true, 96, Stamped)];
    assert bs[..1][..0] == [];
    assert LargestScan(bs[..1]) == 72;
    assert bs[..2][..1] == bs[..1];
    assert LargestScan(bs[..2]) == 72;
    assert bs[..3] == bs;
  }
}
