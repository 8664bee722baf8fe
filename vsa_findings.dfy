/**
  Two places where the allocator's unsigned size arithmetic wraps around.
  Each is modelled once as written, in 64-bit `size_t` arithmetic, with the
  input that shows the problem, and related to the unbounded version that
  the rest of the model uses.
*/
module VsaFindings {
  import opened Wrappers
  import opened VsaBlocks
  import opened Vsa

  // ---------------------------------------------------------------------------
  // The needed size of an allocation

  /** VsaAlloc's size computation in `size_t`: both additions wrap modulo 2^64. */
  function NeededSizeAsWritten(n: nat): (r: nat)
    requires n < SIZE_T_LIMIT
    ensures r < SIZE_T_LIMIT
  {
    var rounded := if n % WORD_SIZE != 0 then (n + (WORD_SIZE - n % WORD_SIZE)) % SIZE_T_LIMIT else n;
    (rounded + HEADER_SIZE) % SIZE_T_LIMIT
  }

  /** The largest request wraps to a single header: the caller would get a block with no payload. */
  lemma NeededSizeWrapsToHeader()
    ensures NeededSizeAsWritten(SIZE_T_LIMIT - 1) == HEADER_SIZE
    ensures NeededSize(SIZE_T_LIMIT - 1) >= SIZE_T_LIMIT - 1 + HEADER_SIZE
  {
  }

  /** A request one header short of 2^64 needs, as written, nothing at all. */
  lemma NeededSizeWrapsToZero()
    ensures NeededSizeAsWritten(SIZE_T_LIMIT - HEADER_SIZE) == 0
    ensures NeededSize(SIZE_T_LIMIT - HEADER_SIZE) == SIZE_T_LIMIT
  {
  }

  /** Below the wrap the code computes exactly the unbounded needed size. */
  lemma NeededSizeAgrees(n: nat)
    requires n + HEADER_SIZE + WORD_SIZE <= SIZE_T_LIMIT
    ensures NeededSizeAsWritten(n) == NeededSize(n)
  {
  }

  lemma {:induction false} BlockWithinSum(bs: seq<Block>, k: nat)
    requires k < |bs|
    ensures bs[k].size <= SumSizes(bs)
  {
    if k > 0 {
      BlockWithinSum(bs[1..], k - 1);
    }
  }

  /**
    With the unbounded needed size, a request larger than the whole chain
    finds no block: in particular every request of 2^64 - 32 bytes or more
    fails, as it must on a region smaller than 2^64 bytes.
  */
  lemma {:induction false} OversizedRequestFails(bs: seq<Block>, n: nat)
    requires SumSizes(bs) < n + HEADER_SIZE
    ensures FirstFit(bs, NeededSize(n)) == None
  {
    forall j | 0 <= j < |bs| ensures !Fits(bs[j], NeededSize(n)) {
      BlockWithinSum(bs, j);
    }
  }

  // ---------------------------------------------------------------------------
  // The size check of VsaInit

  /** The size left after aligning the start, in `size_t`: the subtraction wraps. */
  function AlignedSizeAsWritten(addr: nat, size: nat): (r: nat)
    requires size < SIZE_T_LIMIT
    ensures r < SIZE_T_LIMIT
  {
    if addr % WORD_SIZE != 0 then (size - (WORD_SIZE - addr % WORD_SIZE)) % SIZE_T_LIMIT else size
  }

  /** VsaInit's assertion on the aligned size, as written. */
  predicate InitCheckAsWritten(addr: nat, size: nat)
    requires size < SIZE_T_LIMIT
  {
    AlignedSizeAsWritten(addr, size) >= HANDLE_SIZE + HEADER_SIZE
  }

  /** The size VsaInit stores in the first header, as written. */
  function FirstBlockSizeAsWritten(addr: nat, size: nat): (r: nat)
    requires size < SIZE_T_LIMIT
    ensures r < SIZE_T_LIMIT
  {
    (AlignedSizeAsWritten(addr, size) - HANDLE_SIZE) % SIZE_T_LIMIT
  }

  /**
    A 4-byte region 3 bytes past a word boundary passes the check: aligning
    takes 5 bytes, the aligned size wraps to 2^64 - 1, and the first block
    claims 2^64 - 9 bytes of a region of 4.
  */
  lemma InitCheckWraps()
    ensures InitCheckAsWritten(4099, 4)
    ensures FirstBlockSizeAsWritten(4099, 4) == SIZE_T_LIMIT - 9
  {
  }

  /**
    Where the subtraction does not wrap, the check as written is exactly the
    corrected one that `Allocator.Init` requires, and then the first block
    ends where the region ends.
  */
  lemma InitCheckAgrees(addr: nat, size: nat)
    requires AlignShift(addr) <= size < SIZE_T_LIMIT
    ensures InitCheckAsWritten(addr, size) <==> size >= AlignShift(addr) + HANDLE_SIZE + HEADER_SIZE
    ensures InitCheckAsWritten(addr, size) ==>
      addr + AlignShift(addr) + HANDLE_SIZE + FirstBlockSizeAsWritten(addr, size) == addr + size
  {
  }
}
