/**
  The heap block behind a multi-element vector: a header of size, capacity and
  reference count in front of an array of element slots (vector.h:600-630).

  The byte layout of the header (three machine words at the start of one raw
  allocation) is not modelled: the header is three fields of an object and the
  slots are an array owned by it. Slots past `size` hold whatever value was
  there before; only the first `size` are live.
 */
module HeapBlock {

  class Block<T(0)> {
    /** Number of live elements, the first header word. */
    var size: nat
    /** Capacity recorded in the header, the second header word. */
    var capacity: nat
    /** Number of vectors that share this block, the third header word. */
    var refcount: nat
    /** Set when the block's memory has been returned with operator delete. */
    var freed: bool
    /** The element slots that were allocated together with the header. */
    const slots: array<T>

    /** A block whose header agrees with its allocation and that is still in use. */
    ghost predicate Valid()
      reads this
    {
      size <= capacity && capacity == slots.Length && refcount >= 1 && !freed
    }

    /** The live elements. */
    ghost function Elements(): seq<T>
      reads this, slots
      requires size <= slots.Length
    {
      slots[..size]
    }

    /**
      Raw allocation of `n` element slots with the header written as
      `allocate_and_copy` writes it for a null source (vector.h:713-720).
     */
    constructor (n: nat)
      ensures Valid() && fresh(slots)
      ensures slots.Length == n && size == 0 && capacity == n && refcount == 1
    {
      slots := new T[n];
      size, capacity, refcount, freed := 0, n, 1, false;
    }

    /** Since the old state the block has gained one holder and nothing else changed. */
    twostate predicate Acquired()
      reads this
    {
      refcount == old(refcount) + 1 && size == old(size) && capacity == old(capacity) && freed == old(freed)
    }

    /**
      Since the old state the block has lost one holder, has been freed
      exactly if that was the last one, and nothing else changed.
     */
    twostate predicate Released()
      reads this
    {
      refcount == old(refcount) - 1 && (freed <==> refcount == 0) && size == old(size) && capacity == old(capacity)
    }

    /** Increment of the header's counter when one more vector aliases the block. */
    method Acquire()
      requires Valid()
      modifies this
      ensures Valid() && Acquired()
    {
      refcount := refcount + 1;
    }

    /**
      `free_check` on a non-null block (vector.h:666-671): decrement the
      counter and, when it reaches zero, destroy the live elements and free
      the memory. The elements are left as they are: freed memory is never
      read again.
     */
    method Release()
      requires refcount >= 1 && !freed
      modifies this
      ensures Released()
      ensures refcount >= 1 ==> Valid() == old(Valid())
    {
      refcount := refcount - 1;
      if refcount == 0 {
        freed := true;
      }
    }
  }

  /**
    `std::uninitialized_copy` of `n` elements from `src[from..]` into
    `dst[to..]`, one element at a time from the front. When source and
    destination are the same array the copy moves elements towards the front
    (`to <= from`), as every caller in vector.h does.
   */
  method CopyRange<T>(src: array<T>, from: nat, dst: array<T>, to: nat, n: nat)
    requires from + n <= src.Length && to + n <= dst.Length
    requires src == dst ==> to <= from
    modifies dst
    ensures dst[to..to + n] == old(src[from..from + n])
    ensures dst[..to] == old(dst[..to]) && dst[to + n..] == old(dst[to + n..])
  {
    ghost var s, d := src[..], dst[..];
    var i := 0;
    while i < n
      invariant 0 <= i <= n
      invariant forall k :: to <= k < to + i ==> dst[k] == s[k - to + from]
      invariant forall k :: from + i <= k < from + n ==> src[k] == s[k]
      invariant forall k :: 0 <= k < dst.Length && !(to <= k < to + i) ==> dst[k] == d[k]
    {
      dst[to + i] := src[from + i];
      i := i + 1;
    }
    assert dst[to..to + n] == s[from..from + n];
  }

  /**
    `allocate_and_copy` (vector.h:713-732): a fresh block of `sz` slots that
    holds a copy of the live elements of `src`, or no element when `src` is
    null. The source asserts `sz >= src.size` (vector.h:721).

    As written, the new block's counter is first set to 1 (vector.h:717) and
    then overwritten with the SOURCE block's counter (vector.h:725), so a copy
    of a shared block starts with a counter above 1 although only one vector
    will hold it.
   */
  method AllocateAndCopy<T(0)>(sz: nat, src: Block?<T>) returns (nb: Block<T>)
    requires src != null ==> src.Valid() && src.size <= sz
    ensures fresh(nb) && fresh(nb.slots) && nb.Valid()
    ensures nb.capacity == sz
    ensures src == null ==> nb.size == 0 && nb.refcount == 1
    ensures src != null ==> nb.Elements() == src.Elements() && nb.refcount == src.refcount
  {
    nb := new Block(sz);
    if src == null {
      return;
    }
    nb.size := src.size;
    nb.capacity := sz;
    nb.refcount := src.refcount;
    CopyRange(src.slots, 0, nb.slots, 0, src.size);
  }
}
