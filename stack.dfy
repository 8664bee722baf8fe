/**
  The fixed-capacity stack: a byte buffer of `capacity * elemSize` bytes and a
  `top` offset just above the most recent element.  Elements are opaque byte
  strings of `elemSize` bytes, copied in by Push.
*/
module Stack {
  import opened Wrappers

  newtype byte = b: int | 0 <= b < 256

  /** The byte string `bytes` cut into consecutive elements of `k` bytes; a short tail is dropped. */
  function Chunks(bytes: seq<byte>, k: nat): seq<seq<byte>>
    requires k > 0
    decreases |bytes|
  {
    if |bytes| < k then [] else [bytes[..k]] + Chunks(bytes[k..], k)
  }

  lemma {:induction false} ChunksLength(bytes: seq<byte>, k: nat, c: nat)
    requires k > 0 && |bytes| == c * k
    ensures |Chunks(bytes, k)| == c
  {
    if c > 0 {
      assert |bytes[k..]| == (c - 1) * k;
      ChunksLength(bytes[k..], k, c - 1);
    }
  }

  /** Appending one element's bytes to whole elements appends one element. */
  lemma {:induction false} ChunksAppend(bytes: seq<byte>, elem: seq<byte>, k: nat, c: nat)
    requires k > 0 && |bytes| == c * k && |elem| == k
    ensures Chunks(bytes + elem, k) == Chunks(bytes, k) + [elem]
  {
    if c == 0 {
      assert bytes + elem == elem;
      assert elem[..k] == elem && Chunks(elem[k..], k) == [];
    } else {
      assert (bytes + elem)[..k] == bytes[..k];
      assert (bytes + elem)[k..] == bytes[k..] + elem;
      assert |bytes[k..]| == (c - 1) * k;
      ChunksAppend(bytes[k..], elem, k, c - 1);
    }
  }

  lemma MulLe(a: nat, b: nat, k: nat)
    requires a <= b
    ensures a * k <= b * k
  {
  }

  /** Exact division: `c * k / k` is `c`. */
  lemma MulDiv(c: nat, k: nat)
    requires k > 0
    ensures c * k / k == c
  {
    var q, r := c * k / k, c * k % k;
    assert c * k == q * k + r;
    assert (c - q) * k == r;
    if c - q >= 1 {
      MulLe(1, c - q, k);
    } else if c - q <= -1 {
      MulLe(1, q - c, k);
    }
  }

  /** The element copy of StackPush: `elem` is written at offset `at`, nothing else changes. */
  method CopyInto(a: array<byte>, at: nat, elem: seq<byte>)
    requires at + |elem| <= a.Length
    modifies a
    ensures a[..at] == old(a[..at])
    ensures a[at..at + |elem|] == elem
    ensures a[at + |elem|..] == old(a[at + |elem|..])
  {
    for j := 0 to |elem|
      invariant a[..at] == old(a[..at])
      invariant a[at..at + j] == elem[..j]
      invariant a[at + |elem|..] == old(a[at + |elem|..])
    {
      a[at + j] := elem[j];
      assert a[at..at + j + 1] == a[at..at + j] + [elem[j]];
    }
  }

  class Stack {
    /** Bytes per element. */
    const elemSize: nat
    /** The number of elements the buffer holds. */
    const capacity: nat
    /** The element buffer. */
    const base: array<byte>
    /** Byte offset of the first free slot: equal to 0 when the stack is empty. */
    var top: nat
    /** The number of live elements. */
    ghost var count: nat

    ghost predicate Valid()
      reads this
    {
      && elemSize > 0 && capacity > 0
      && base.Length == capacity * elemSize
      && count <= capacity && top == count * elemSize && top <= base.Length
    }

    /** The live elements, bottom first. */
    ghost function Contents(): seq<seq<byte>>
      requires Valid()
      reads this, base
    {
      Chunks(base[..top], elemSize)
    }

    constructor Empty(capacity: nat, elemSize: nat)
      requires capacity > 0 && elemSize > 0
      ensures Valid() && fresh(base)
      ensures this.capacity == capacity && this.elemSize == elemSize
      ensures Contents() == []
    {
      this.capacity := capacity;
      this.elemSize := elemSize;
      base := new byte[capacity * elemSize];
      top := 0;
      count := 0;
      new;
      assert base[..0] == [];
    }

    /** StackSize: the distance from the base to the top, in elements. */
    function Size(): (n: nat)
      requires Valid()
      reads this, base
      ensures n == |Contents()| && n <= capacity
    {
      ChunksLength(base[..top], elemSize, count);
      MulDiv(count, elemSize);
      top / elemSize
    }

    /** StackCapacity. */
    function Capacity(): (c: nat)
      requires Valid()
      reads this, base
      ensures c > 0 && Size() <= c
    {
      capacity
    }

    /** IsStackEmpty: 0 when the stack is empty and 1 otherwise. */
    function IsStackEmpty(): (r: int)
      requires Valid()
      reads this, base
      ensures r == 0 || r == 1
      ensures r == 0 <==> Contents() == []
    {
      ChunksLength(base[..top], elemSize, count);
      if top <= 0 then 0 else 1
    }

    /**
      StackPush: fails with -1 on a full stack and changes nothing; otherwise
      copies the element above the top and moves the top up by one element.
    */
    method Push(elem: seq<byte>) returns (status: int)
      requires Valid() && |elem| == elemSize
      modifies this, base
      ensures Valid()
      ensures status == (if old(Size()) == capacity then -1 else 0)
      ensures status == -1 ==> top == old(top) && base[..] == old(base[..])
      ensures status == 0 ==> Contents() == old(Contents()) + [elem]
    {
      if Capacity() == Size() {
        return -1;
      }
      ghost var live := base[..top];
      ChunksLength(live, elemSize, count);
      assert count < capacity;
      assert top + elemSize == (count + 1) * elemSize <= base.Length by {
        MulLe(count + 1, capacity, elemSize);
      }
      CopyInto(base, top, elem);
      assert base[..top + elemSize] == live + elem;
      ChunksAppend(live, elem, elemSize, count);
      top := top + elemSize;
      count := count + 1;
      status := 0;
    }

    /** StackPeek: the most recent element, if any; the stack is not changed. */
    method Peek() returns (e: Option<seq<byte>>)
      requires Valid()
      ensures e == if Contents() == [] then None else Some(Contents()[|Contents()| - 1])
    {
      if IsStackEmpty() == 0 {
        return None;
      }
      ghost var below := base[..top - elemSize];
      assert top - elemSize == (count - 1) * elemSize;
      assert base[..top] == below + base[top - elemSize..top];
      ChunksAppend(below, base[top - elemSize..top], elemSize, count - 1);
      e := Some(base[top - elemSize..top]);
    }

    /**
      StackPop: fails with -1 on an empty stack; otherwise moves the top down
      by one element, leaving the buffer and the lower elements as they are.
    */
    method Pop() returns (status: int)
      requires Valid()
      modifies this
      ensures Valid() && base[..] == old(base[..])
      ensures status == (if old(Contents()) == [] then -1 else 0)
      ensures status == -1 ==> top == old(top)
      ensures status == 0 ==> Contents() == old(Contents())[..|old(Contents())| - 1]
    {
      if IsStackEmpty() == 0 {
        return -1;
      }
      ghost var below := base[..top - elemSize];
      assert top - elemSize == (count - 1) * elemSize;
      assert base[..top] == below + base[top - elemSize..top];
      ChunksAppend(below, base[top - elemSize..top], elemSize, count - 1);
      top := top - elemSize;
      count := count - 1;
      status := 0;
    }
  }

  /** StackCreate: no stack for a zero capacity or a zero element size, else an empty one. */
  method Create(capacity: nat, elemSize: nat) returns (s: Option<Stack>)
    ensures s == None <==> capacity == 0 || elemSize == 0
    ensures s.Some? ==> fresh(s.value) && fresh(s.value.base) && s.value.Valid()
    ensures s.Some? ==> s.value.Contents() == [] && s.value.capacity == capacity && s.value.elemSize == elemSize
  {
    if capacity == 0 || elemSize == 0 {
      return None;
    }
    var st := new Stack.Empty(capacity, elemSize);
    s := Some(st);
  }

  /** Push followed by Pop gives back the stack's previous contents (last in, first out). */
  method PushThenPop(st: Stack, elem: seq<byte>) returns (pushed: int, popped: int)
    requires st.Valid() && |elem| == st.elemSize && st.Size() < st.capacity
    modifies st, st.base
    ensures st.Valid() && pushed == 0 && popped == 0
    ensures st.Contents() == old(st.Contents())
    ensures st.Size() == old(st.Size())
  {
    pushed := st.Push(elem);
    popped := st.Pop();
  }

  /**
    The stack's test sequence: a stack of two 4-byte elements; a pop on the
    empty stack; pushes of 5 and 10 with a peek after each (reading the
    element's first byte); a push on the full stack; then pops down to empty
    and one more.
  */
  method StackRun() returns (results: seq<int>)
    ensures results == [0, 2, -1, 0, 5, 0, 10, 1, 2, -1, 0, 1, 0, 0, -1]
  {
    var created := Create(2, 4);
    var st := created.value;
    var x, y := [5 as byte, 0, 0, 0], [10 as byte, 0, 0, 0];
    var e0, c0 := st.IsStackEmpty(), st.Capacity();
    var r0 := st.Pop();
    assert st.Contents() == [];
    var r1 := st.Push(x);
    assert st.Contents() == [x];
    var t1 := st.Peek();
    var r2 := st.Push(y);
    assert st.Contents() == [x, y];
    var t2 := st.Peek();
    var e1, n1 := st.IsStackEmpty(), st.Size();
    var r3 := st.Push(x);
    assert st.Contents() == [x, y];
    var r4 := st.Pop();
    assert st.Contents() == [x];
    var n2 := st.Size();
    var r5 := st.Pop();
    assert st.Contents() == [];
    var n3 := st.Size();
    var r6 := st.Pop();
    results := [e0, c0, r0, r1, t1.value[0] as int, r2, t2.value[0] as int, e1, n1, r3, r4, n2, r5, n3, r6];
  }
}
