/**
  The variable-size allocator as the C code runs it: a handle at the aligned
  start of the caller's region, followed by a chain of headers written into
  the region itself.  Memory is modelled as the map from header address to
  header contents (`mem`); the ghost sequence `blocks` is the chain those
  headers form, in address order.
*/
module Vsa {
  import opened Wrappers
  import opened VsaBlocks

  /** How far a start address moves forward to the next word boundary. */
  function AlignShift(addr: nat): (s: nat)
    ensures s < WORD_SIZE && (addr + s) % WORD_SIZE == 0
    ensures addr % WORD_SIZE == 0 <==> s == 0
  {
    if addr % WORD_SIZE != 0 then WORD_SIZE - addr % WORD_SIZE else 0
  }

  /**
    What the defragmentation loop keeps, from memory `m0` holding chain `b0`
    to memory `mem` holding chain `bs` with the current header at index `i`:
    the pass so far plus the pass from `i` on gives the full pass, only
    headers of `b0` have been written, each header absorbed so far is the old
    one with its cookie cleared, and headers after the current one are
    still as they were.
  */
  ghost predicate DefragInv(first: nat, m0: map<nat, Header>, b0: seq<Block>,
                            mem: map<nat, Header>, bs: seq<Block>, i: nat)
  {
    && i < |bs| && SizesAtLeastHeader(bs)
    && Laid(mem, first, bs)
    && Coalesce(b0) == bs[..i] + Coalesce(bs[i..])
    && mem.Keys == m0.Keys
    && HeaderAddresses(first, bs) <= HeaderAddresses(first, b0)
    && (forall a :: a in m0 && a !in HeaderAddresses(first, b0) ==> mem[a] == m0[a])
    && (forall a :: a in m0 && a in HeaderAddresses(first, b0) && a !in HeaderAddresses(first, bs) ==>
          mem[a] == m0[a].(cookie := Cleared))
    && (forall j :: i < j < |bs| ==> first + Offset(bs, j) in m0 && mem[first + Offset(bs, j)] == m0[first + Offset(bs, j)])
  }

  /** The walk's current header is block `i`'s and its next header is block `i + 1`'s, or none. */
  ghost predicate Cursor(first: nat, bs: seq<Block>, i: nat, cur: Option<nat>, nxt: Option<nat>)
    requires i < |bs|
  {
    && cur == Some(first + Offset(bs, i))
    && nxt == if i + 1 < |bs| then Some(first + Offset(bs, i + 1)) else None
  }

  lemma {:induction false} DefragStart(first: nat, m0: map<nat, Header>, b0: seq<Block>)
    requires Laid(m0, first, b0) && WellFormed(b0)
    ensures DefragInv(first, m0, b0, m0, b0, 0)
  {
    assert b0[..0] + b0[0..] == b0;
  }

  /** The merge branch writes only the current header and the absorbed one. */
  lemma {:induction false} MergeFrame(first: nat, m0: map<nat, Header>, b0: seq<Block>,
                                       mem: map<nat, Header>, bs: seq<Block>, i: nat)
    requires DefragInv(first, m0, b0, mem, bs, i)
    requires i + 1 < |bs|
    ensures first + Offset(bs, i) in mem && first + Offset(bs, i + 1) in mem
    ensures var c, n := first + Offset(bs, i), first + Offset(bs, i + 1);
      && c < n && c in HeaderAddresses(first, b0) && n in HeaderAddresses(first, b0)
      && n in m0 && mem[n] == m0[n]
  {
    var c, n := first + Offset(bs, i), first + Offset(bs, i + 1);
    assert mem[c] == HeaderAt(first, bs, i);
    assert mem[n] == HeaderAt(first, bs, i + 1);
    OffsetsDistinct(bs, i, i + 1);
    OffsetsIncrease(bs, i, i + 1);
    HeaderAddressIn(first, bs, i);
    HeaderAddressIn(first, bs, i + 1);
  }

  /** Headers that were already dead stay untouched by a merge. */
  lemma {:induction false} MergeKeepsDead(first: nat, m0: map<nat, Header>, b0: seq<Block>,
                                           mem: map<nat, Header>, bs: seq<Block>, i: nat)
    requires DefragInv(first, m0, b0, mem, bs, i)
    requires i + 1 < |bs|
    ensures first + Offset(bs, i) in mem && first + Offset(bs, i + 1) in mem
    ensures var mem' := MergeMem(mem, first + Offset(bs, i), first + Offset(bs, i + 1));
      forall a :: a in m0 && a !in HeaderAddresses(first, b0) ==> mem'[a] == m0[a]
  {
    MergeFrame(first, m0, b0, mem, bs, i);
  }

  /** After a merge every absorbed header, including the new one, is the old one with a cleared cookie. */
  lemma {:induction false} MergeClearsAbsorbed(first: nat, m0: map<nat, Header>, b0: seq<Block>,
                                                mem: map<nat, Header>, bs: seq<Block>, i: nat)
    requires DefragInv(first, m0, b0, mem, bs, i)
    requires i + 1 < |bs|
    ensures first + Offset(bs, i) in mem && first + Offset(bs, i + 1) in mem
    ensures var mem' := MergeMem(mem, first + Offset(bs, i), first + Offset(bs, i + 1));
      forall a :: a in m0 && a in HeaderAddresses(first, b0) && a !in HeaderAddresses(first, MergeAt(bs, i)) ==>
        mem'[a] == m0[a].(cookie := Cleared)
  {
    MergeFrame(first, m0, b0, mem, bs, i);
    HeaderAddressesMerge(first, bs, i);
    HeaderAddressIn(first, bs, i);
  }

  /** A merge leaves the headers after the current one as they were. */
  lemma {:induction false} MergeKeepsLater(first: nat, m0: map<nat, Header>, b0: seq<Block>,
                                            mem: map<nat, Header>, bs: seq<Block>, i: nat)
    requires DefragInv(first, m0, b0, mem, bs, i)
    requires i + 1 < |bs|
    ensures first + Offset(bs, i) in mem && first + Offset(bs, i + 1) in mem
    ensures var mem', bs' := MergeMem(mem, first + Offset(bs, i), first + Offset(bs, i + 1)), MergeAt(bs, i);
      forall j :: i < j < |bs'| ==>
        first + Offset(bs', j) in m0 && mem'[first + Offset(bs', j)] == m0[first + Offset(bs', j)]
  {
    MergeFrame(first, m0, b0, mem, bs, i);
    var mem', bs' := MergeMem(mem, first + Offset(bs, i), first + Offset(bs, i + 1)), MergeAt(bs, i);
    forall j | i < j < |bs'|
      ensures first + Offset(bs', j) in m0 && mem'[first + Offset(bs', j)] == m0[first + Offset(bs', j)]
    {
      OffsetsMerge(bs, i, j);
      OffsetsDistinct(bs, i, j + 1);
      OffsetsDistinct(bs, i + 1, j + 1);
      assert mem[first + Offset(bs, j + 1)] == m0[first + Offset(bs, j + 1)];
    }
  }

  /** The link the merge branch follows next is the merged chain's link after the current header. */
  lemma {:induction false} MergeNextLink(first: nat, mem: map<nat, Header>, bs: seq<Block>, i: nat)
    requires Laid(mem, first, bs) && SizesAtLeastHeader(bs)
    requires i + 1 < |bs|
    ensures first + Offset(bs, i) in mem && first + Offset(bs, i + 1) in mem
    ensures Offset(MergeAt(bs, i), i) == Offset(bs, i)
    ensures mem[first + Offset(bs, i + 1)].next
         == if i + 1 < |MergeAt(bs, i)| then Some(first + Offset(MergeAt(bs, i), i + 1)) else None
  {
    assert mem[first + Offset(bs, i)] == HeaderAt(first, bs, i);
    assert mem[first + Offset(bs, i + 1)] == HeaderAt(first, bs, i + 1);
    OffsetsMerge(bs, i, i);
    if i + 2 < |bs| {
      OffsetsMerge(bs, i, i + 1);
      OffsetNext(bs, i + 1);
    }
  }

  /** The merge branch keeps the loop invariant. */
  lemma {:induction false} DefragMergeStep(first: nat, m0: map<nat, Header>, b0: seq<Block>,
                                            mem: map<nat, Header>, bs: seq<Block>, i: nat)
    requires DefragInv(first, m0, b0, mem, bs, i)
    requires i + 1 < |bs| && bs[i].isFree && bs[i + 1].isFree
    ensures first + Offset(bs, i) in mem && first + Offset(bs, i + 1) in mem
    ensures DefragInv(first, m0, b0, MergeMem(mem, first + Offset(bs, i), first + Offset(bs, i + 1)), MergeAt(bs, i), i)
  {
    LaidMerge(mem, first, bs, i);
    HeaderAddressesMerge(first, bs, i);
    CoalesceFromMerge(bs, i);
    MergeKeepsDead(first, m0, b0, mem, bs, i);
    MergeClearsAbsorbed(first, m0, b0, mem, bs, i);
    MergeKeepsLater(first, m0, b0, mem, bs, i);
  }

  /** The advance branch keeps the loop invariant. */
  lemma {:induction false} DefragAdvanceStep(first: nat, m0: map<nat, Header>, b0: seq<Block>,
                                              mem: map<nat, Header>, bs: seq<Block>, i: nat)
    requires DefragInv(first, m0, b0, mem, bs, i)
    requires i + 1 < |bs| && !(bs[i].isFree && bs[i + 1].isFree)
    ensures DefragInv(first, m0, b0, mem, bs, i + 1)
    ensures first + Offset(bs, i) in mem && first + Offset(bs, i + 1) in mem
    ensures Cursor(first, bs, i + 1, mem[first + Offset(bs, i)].next, mem[first + Offset(bs, i + 1)].next)
  {
    assert mem[first + Offset(bs, i)] == HeaderAt(first, bs, i);
    assert mem[first + Offset(bs, i + 1)] == HeaderAt(first, bs, i + 1);
    OffsetNext(bs, i);
    if i + 2 < |bs| { OffsetNext(bs, i + 1); }
    CoalesceFromAdvance(bs, i);
  }

  /**
    The merge branch of the walk: header `c` absorbs its free successor `n`
    (sizes added, link copied, `n`'s cookie cleared); the walk then looks at
    the header after `n`.
  */
  method AbsorbNext(first: nat, ghost m0: map<nat, Header>, ghost b0: seq<Block>,
                    m: map<nat, Header>, ghost bs: seq<Block>, ghost i: nat, c: nat, n: nat)
    returns (m': map<nat, Header>, nxt: Option<nat>)
    requires DefragInv(first, m0, b0, m, bs, i)
    requires i + 1 < |bs| && bs[i].isFree && bs[i + 1].isFree
    requires c == first + Offset(bs, i) && n == first + Offset(bs, i + 1)
    ensures m' == MergeMem(m, c, n)
    ensures DefragInv(first, m0, b0, m', MergeAt(bs, i), i)
    ensures Cursor(first, MergeAt(bs, i), i, Some(c), nxt)
  {
    DefragMergeStep(first, m0, b0, m, bs, i);
    MergeNextLink(first, m, bs, i);
    MergeFrame(first, m0, b0, m, bs, i);
    var hc, hn := m[c], m[n];
    m' := m[c := hc.(blockSize := hc.blockSize + hn.blockSize, next := hn.next)];
    m' := m'[n := hn.(cookie := Cleared)];
    nxt := hn.next;
  }

  /**
    The walk of Defragmentation over the header memory `m0` holding chain
    `b0`: compare the current header with the next; when both are free the
    current one absorbs the next (and is compared again with its new
    successor), otherwise both move on by one header.
  */
  method DefragWalk(first: nat, m0: map<nat, Header>, ghost b0: seq<Block>)
    returns (m: map<nat, Header>, ghost bs: seq<Block>)
    requires Laid(m0, first, b0) && WellFormed(b0)
    ensures bs == Coalesce(b0)
    ensures |bs| >= 1 && DefragInv(first, m0, b0, m, bs, |bs| - 1)
  {
    m := m0;
    bs := b0;
    assert Offset(bs, 0) == 0;
    assert m[first] == HeaderAt(first, bs, 0);
    var cur: Option<nat> := Some(first);
    var nxt: Option<nat> := m[first].next;
    ghost var i: nat := 0;
    if 1 < |bs| { OffsetNext(bs, 0); }
    DefragStart(first, m, bs);
    while cur != None && nxt != None
      invariant DefragInv(first, m0, b0, m, bs, i)
      invariant Cursor(first, bs, i, cur, nxt)
      decreases |bs| - i
    {
      var c, n := cur.value, nxt.value;
      assert m[c] == HeaderAt(first, bs, i);
      assert m[n] == HeaderAt(first, bs, i + 1);
      if m[c].isFree && m[n].isFree {
        m, nxt := AbsorbNext(first, m0, b0, m, bs, i, c, n);
        bs := MergeAt(bs, i);
      } else {
        cur := m[c].next;
        nxt := m[n].next;
        DefragAdvanceStep(first, m0, b0, m, bs, i);
        i := i + 1;
      }
    }
    assert bs[..i] + bs[i..] == bs;
  }

  /**
    The search loop of VsaAlloc over the header memory `m` holding chain `bs`:
    follow the links from the first header until a free header of at least
    `need` bytes turns up.  Returns that header's address and size, or None
    at the end of the chain.
  */
  method FirstFitWalk(first: nat, m: map<nat, Header>, ghost bs: seq<Block>, need: nat)
    returns (hit: Option<nat>, original: nat, ghost k: nat)
    requires Laid(m, first, bs) && |bs| >= 1
    ensures FirstFit(bs, need) == (if hit == None then None else Some(k))
    ensures hit.Some? ==> k < |bs| && hit == Some(first + Offset(bs, k)) && original == bs[k].size
  {
    var cur: Option<nat> := Some(first);
    original := 0;
    k := 0;
    assert Offset(bs, 0) == 0;
    while cur != None
      invariant k <= |bs|
      invariant cur == if k < |bs| then Some(first + Offset(bs, k)) else None
      invariant forall j :: 0 <= j < k ==> !Fits(bs[j], need)
      decreases |bs| - k
    {
      var c := cur.value;
      assert m[c] == HeaderAt(first, bs, k);
      original := m[c].blockSize;
      if m[c].isFree && m[c].blockSize >= need {
        FirstFitAt(bs, need, k);
        return cur, original, k;
      }
      if k + 1 < |bs| { OffsetNext(bs, k); }
      cur := m[c].next;
      k := k + 1;
    }
    return None, original, k;
  }

  /**
    The scan loop of VsaLargestChunk over the header memory `m` holding chain
    `bs`: follow the links from the first header, keeping the running value
    of the scan step.
  */
  method ScanWalk(first: nat, m: map<nat, Header>, ghost bs: seq<Block>) returns (largest: nat)
    requires Laid(m, first, bs) && SizesAtLeastHeader(bs) && |bs| >= 1
    ensures largest == LargestScan(bs)
  {
    var cur: Option<nat> := Some(first);
    largest := 0;
    ghost var i: nat := 0;
    assert Offset(bs, 0) == 0;
    while cur != None
      invariant i <= |bs|
      invariant cur == if i < |bs| then Some(first + Offset(bs, i)) else None
      invariant SizesAtLeastHeader(bs[..i]) && largest == LargestScan(bs[..i])
      decreases |bs| - i
    {
      var c := cur.value;
      assert m[c] == HeaderAt(first, bs, i);
      if m[c].isFree && m[c].blockSize > largest {
        largest := m[c].blockSize - HEADER_SIZE;
      }
      assert bs[..i + 1][..i] == bs[..i];
      if i + 1 < |bs| { OffsetNext(bs, i); }
      cur := m[c].next;
      i := i + 1;
    }
    assert bs[..i] == bs;
  }

  class Allocator {
    /** Address of the handle (the `vsa_t` record) at the aligned start of the region. */
    const handle: nat
    /** Address of the first header, right after the handle; it never moves. */
    const firstHeader: nat
    /** Whether freeing checks the header's cookie (the source's DEBUG build). */
    const debug: bool
    /** Bytes covered by the chain: the aligned region minus the handle. */
    ghost const capacity: nat

    /** The headers written so far, by address, including ones absorbed by coalescing. */
    var mem: map<nat, Header>
    /** The live chain of blocks in address order. */
    ghost var blocks: seq<Block>

    /** The addresses of the headers of the live chain. */
    ghost function Live(): set<nat>
      reads this
    {
      HeaderAddresses(firstHeader, blocks)
    }

    /**
      The allocator invariant: the live headers in `mem` are laid out as
      `blocks`, a well-formed chain covering exactly `capacity` bytes from the
      word-aligned first header.
    */
    ghost predicate Valid()
      reads this
    {
      && firstHeader == handle + HANDLE_SIZE
      && firstHeader % WORD_SIZE == 0
      && WellFormed(blocks)
      && SumSizes(blocks) == capacity
      && Laid(mem, firstHeader, blocks)
    }

    /**
      What a defragmentation pass leaves behind: the chain is the coalesced
      old chain, no header address appears or disappears, headers that were
      already dead are untouched, and each header absorbed by the pass keeps its
      contents but has its cookie cleared.
    */
    twostate predicate Defragmented()
      reads this
    {
      && blocks == Coalesce(old(blocks))
      && mem.Keys == old(mem).Keys
      && (forall a :: a in old(mem) && a !in HeaderAddresses(firstHeader, old(blocks)) ==> mem[a] == old(mem)[a])
      && (forall a :: a in old(mem) && a in HeaderAddresses(firstHeader, old(blocks)) && a !in Live() ==>
            mem[a] == old(mem)[a].(cookie := Cleared))
    }

    /**
      VsaInit: align the start address, place the handle there and the first
      header right after it, covering the rest of the region as one free block
      with no successor.  The size check is the source's assertion, stated
      without the unsigned wrap-around of the aligned size.
    */
    constructor Init(addr: nat, size: nat, debug: bool)
      requires addr != 0 && addr < SIZE_T_LIMIT && size < SIZE_T_LIMIT
      requires size >= AlignShift(addr) + HANDLE_SIZE + HEADER_SIZE
      ensures Valid()
      ensures handle == addr + AlignShift(addr) && firstHeader == handle + HANDLE_SIZE
      ensures capacity == size - AlignShift(addr) - HANDLE_SIZE
      ensures firstHeader + capacity == addr + size
      ensures blocks == [Block(true, capacity, Stamped)]
      ensures mem == map[firstHeader := Header(true, None, capacity, Stamped)]
      ensures this.debug == debug
    {
      var start := addr;
      var usable := size;
      var remainder := addr % WORD_SIZE;
      if remainder != 0 {
        usable := usable - (WORD_SIZE - remainder);
        start := start + (WORD_SIZE - remainder);
      }
      handle := start;
      firstHeader := start + HANDLE_SIZE;
      this.debug := debug;
      capacity := usable - HANDLE_SIZE;
      mem := map[start + HANDLE_SIZE := Header(true, None, usable - HANDLE_SIZE, Stamped)];
      blocks := [Block(true, usable - HANDLE_SIZE, Stamped)];
      new;
      assert Offset(blocks, 0) == 0;
      assert HeaderAddresses(firstHeader, blocks) == {firstHeader};
    }

    /**
      Defragmentation: walk the chain with a current and a next header; when
      both are free the current one absorbs the next (and is compared again
      with its new successor), otherwise both move on by one header.
    */
    method Defragmentation()
      requires Valid()
      modifies this
      ensures Valid() && blocks == Coalesce(old(blocks))
      ensures Defragmented()
    {
      ghost var b0 := blocks;
      var m;
      ghost var bs;
      m, bs := DefragWalk(firstHeader, mem, blocks);
      CoalesceWellFormed(b0);
      CoalesceSum(b0);
      mem, blocks := m, bs;
    }

    /**
      ManageBlockRemainder: after block `k` (at `c`, originally `original`
      bytes, linked to `savedNext`) was handed out for `need` bytes, split off
      the leftover as a new free header when it can hold a header and a word.
    */
    method ManageBlockRemainder(c: nat, savedNext: Option<nat>, need: nat, original: nat, ghost k: nat)
      requires k < |blocks| && SizesAtLeastHeader(blocks) && Laid(mem, firstHeader, blocks)
      requires c == firstHeader + Offset(blocks, k) && c in mem && savedNext == mem[c].next
      requires original == blocks[k].size && HEADER_SIZE <= need <= original
      modifies this
      ensures SplitsOff(original, need) ==>
        blocks == SplitAt(old(blocks), k, need) && mem == SplitMem(old(mem), c, need, original - need)
      ensures !SplitsOff(original, need) ==> blocks == old(blocks) && mem == old(mem)
      ensures Laid(mem, firstHeader, blocks) && SizesAtLeastHeader(blocks)
    {
      if original - need >= HEADER_SIZE + WORD_SIZE {
        ghost var before := mem;
        mem := mem[c := mem[c].(next := Some(c + need), blockSize := need)];
        // The source's test of `saved_next` against NULL stores `saved_next` on both branches.
        mem := mem[c + need := Header(true, savedNext, original - need, Stamped)];
        assert mem == SplitMem(before, c, need, original - need);
        LaidSplit(before, firstHeader, blocks, k, need);
        blocks := SplitAt(blocks, k, need);
      }
    }

    /**
      VsaAlloc: compute the needed size, defragment, then hand out the first
      free block that is large enough, splitting off the leftover when the
      split rule allows.  On failure the chain is as defragmentation left it.
    */
    method Alloc(n: nat) returns (p: Option<nat>)
      requires Valid() && n < SIZE_T_LIMIT
      modifies this
      ensures Valid()
      ensures (p, blocks) == TakeFirst(firstHeader, Coalesce(old(blocks)), NeededSize(n))
    {
      var need := n;
      var remainder := n % WORD_SIZE;
      if remainder != 0 {
        need := need + (WORD_SIZE - remainder);
      }
      need := need + HEADER_SIZE;
      assert need == NeededSize(n);
      Defragmentation();
      p := TakeFirstFit(need);
    }

    /** VsaAlloc's walk after defragmentation: the first block that fits is claimed, or nothing changes. */
    method TakeFirstFit(need: nat) returns (p: Option<nat>)
      requires Valid() && need % WORD_SIZE == 0 && need >= HEADER_SIZE
      modifies this
      ensures Valid()
      ensures (p, blocks) == TakeFirst(firstHeader, old(blocks), need)
    {
      var hit, original;
      ghost var k;
      hit, original, k := FirstFitWalk(firstHeader, mem, blocks, need);
      if hit == None {
        return None;
      }
      p := Claim(hit.value, original, need, k);
    }

    /**
      The hit branch of VsaAlloc's walk: block `k` at `c` fits, so remember
      its link, mark it allocated and stamped, split off the remainder and
      return the payload address right after the header.
    */
    method Claim(c: nat, original: nat, need: nat, ghost k: nat) returns (p: Option<nat>)
      requires Valid() && k < |blocks| && c == firstHeader + Offset(blocks, k)
      requires Fits(blocks[k], need) && original == blocks[k].size
      requires need % WORD_SIZE == 0 && need >= HEADER_SIZE
      modifies this
      ensures Valid()
      ensures blocks == Carve(old(blocks), k, need)
      ensures p == Some(c + HEADER_SIZE)
    {
      ghost var cs := blocks;
      assert mem[c] == HeaderAt(firstHeader, blocks, k);
      var savedNext := mem[c].next;
      var marked := Block(false, blocks[k].size, Stamped);
      LaidSetBlock(mem, firstHeader, blocks, k, marked);
      OffsetsSetBlock(blocks, k, marked, k);
      mem := mem[c := mem[c].(isFree := false, cookie := Stamped)];
      blocks := SetBlock(blocks, k, marked);
      p := Some(c + HEADER_SIZE);
      ManageBlockRemainder(c, savedNext, need, original, k);
      CarveIsMarkThenSplit(cs, k, need);
      CarveWellFormed(cs, k, need);
      CarveSum(cs, k, need);
    }

    /**
      VsaFree: step back one header from the payload and mark that header
      free.  In the checked build the header's cookie must still be stamped,
      which the invariant guarantees for every live payload.
    */
    method Free(p: nat)
      requires Valid() && IsLivePayload(firstHeader, blocks, p)
      modifies this
      ensures Valid()
      ensures p >= HEADER_SIZE && p - HEADER_SIZE in old(mem)
      ensures mem == old(mem)[p - HEADER_SIZE := old(mem)[p - HEADER_SIZE].(isFree := true)]
      ensures blocks == FreeAt(old(blocks), BlockOf(firstHeader, old(blocks), p))
    {
      ghost var k := BlockOf(firstHeader, blocks, p);
      var h := p - HEADER_SIZE;
      assert mem[h] == HeaderAt(firstHeader, blocks, k);
      if debug {
        assert mem[h].cookie == Stamped;
      }
      var freed := blocks[k].(isFree := true);
      LaidSetBlock(mem, firstHeader, blocks, k, freed);
      OffsetsSetBlock(blocks, k, freed, |blocks|);
      OffsetEnd(blocks);
      OffsetEnd(SetBlock(blocks, k, freed));
      mem := mem[h := mem[h].(isFree := true)];
      blocks := SetBlock(blocks, k, freed);
    }

    /**
      VsaLargestChunk: defragment, then scan the chain keeping the running
      value the scan step computes.
    */
    method LargestChunk() returns (largest: nat)
      requires Valid()
      modifies this
      ensures Valid()
      ensures Defragmented()
      ensures largest == LargestScan(blocks)
    {
      Defragmentation();
      largest := ScanWalk(firstHeader, mem, blocks);
    }
  }
}
