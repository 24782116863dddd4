/**
  Client runs of the vector, each stating what the model says the state is
  afterwards: the alias scenario of main.cpp:25-41 and witnesses for the
  places where vector.h's behaviour differs from what copy-on-write promises.
 */
module Scenarios {
  import opened HeapBlock
  import opened CowVector

  /** A vector holding 1, 2, 3 in a block of capacity 4 with counter 1. */
  method OneTwoThree() returns (a: Vector<int>)
    ensures fresh(a) && fresh(a.Footprint())
    ensures a.Valid() && a.Contents() == [1, 2, 3]
    ensures a.storage.Ptr? && a.storage.p != null
    ensures a.storage.p.capacity == 4 && a.storage.p.refcount == 1
  {
    a := new Vector();
    a.PushBack(1);
    a.PushBack(2);
    a.PushBack(3);
  }

  /** A vector holding 1, 2 in a full block of capacity 2 with counter 1. */
  method OneTwo() returns (a: Vector<int>)
    ensures fresh(a) && fresh(a.Footprint())
    ensures a.Valid() && a.Contents() == [1, 2]
    ensures a.storage.Ptr? && a.storage.p != null
    ensures a.storage.p.size == a.storage.p.capacity == 2 && a.storage.p.refcount == 1
  {
    a := new Vector();
    a.PushBack(1);
    a.PushBack(2);
  }

  /** A vector holding 4, 5 in a block of capacity 2 with counter 1. */
  method FourFive() returns (b: Vector<int>)
    ensures fresh(b) && fresh(b.Footprint())
    ensures b.Valid() && b.Contents() == [4, 5]
  {
    b := new Vector();
    b.PushBack(4);
    b.PushBack(5);
  }

  /** main.cpp:25-32: `b = a` leaves both vectors on `a`'s block, now with counter 2. */
  method AssignedPair() returns (a: Vector<int>, b: Vector<int>)
    ensures fresh(a) && fresh(b) && a != b && fresh(a.Footprint())
    ensures a.Valid() && b.Valid() && a.Contents() == [1, 2, 3]
    ensures a.storage.Ptr? && a.storage.p != null && b.storage == a.storage
    ensures a.storage.p.capacity == 4 && a.storage.p.refcount == 2
  {
    a := OneTwoThree();
    b := FourFive();
    b.Assign(a);
  }

  /**
    main.cpp:25-41: after `b = a`, writing `b[1]` copies the shared block, so
    `a` keeps 1 2 3 while `b` becomes 1 0 3, and `b.push_back(6)` then
    appends to `b`'s private block only.
   */
  method MainScenario() returns (a: Vector<int>, b: Vector<int>)
    ensures a.Valid() && b.Valid()
    ensures a.Contents() == [1, 2, 3] && b.Contents() == [1, 0, 3, 6]
    ensures a.storage.Ptr? && a.storage.p != null && a.storage.p.refcount == 1
  {
    a, b := AssignedPair();
    ghost var shared := a.storage.p;
    b.Set(1, 0);
    assert shared.refcount == 1 && fresh(b.storage.p) && b.Contents() == [1, 0, 3];
    b.PushBack(6);
  }

  /**
    Copy independence for element writes, for every vector `a` and index:
    after `b` is made a copy of `a`, writing `b[i]` copies the shared block
    first (vector.h:307-311), so `a` keeps its elements.
   */
  method CopyThenWrite<T(0)>(a: Vector<T>, i: nat, x: T) returns (b: Vector<T>)
    requires a.Valid() && i < a.Size()
    modifies a.Footprint()
    ensures a.Valid() && b.Valid()
    ensures a.Contents() == old(a.Contents())
    ensures b.Contents() == old(a.Contents())[i := x]
  {
    b := new Vector.Copy(a);
    b.Set(i, x);
  }

  /**
    What a copy sees of a `push_back` onto its alias, for every vector `a`:
    when `a` has spare capacity the element goes into the shared block in
    place (vector.h:361-369), so `a` sees it too; when `a` is full, `b` moves
    to a new block (vector.h:364-365) and `a` is unaffected.
   */
  method CopyThenPushBack<T(0)>(a: Vector<T>, x: T) returns (b: Vector<T>)
    requires a.Valid()
    modifies a.Footprint()
    ensures a.Valid() && b.Valid()
    ensures b.Contents() == old(a.Contents()) + [x]
    ensures old(a.Size()) < old(a.Capacity()) ==> a.Contents() == old(a.Contents()) + [x]
    ensures old(a.Size()) == old(a.Capacity()) ==> a.Contents() == old(a.Contents())
  {
    b := new Vector.Copy(a);
    b.PushBack(x);
  }

  /**
    Missing copy-on-write gate in `push_back` (vector.h:366-369): with spare
    capacity the element is written into the shared block and the shared
    size grows, so the copy `a` sees the element pushed onto `b`.
   */
  method PushBackShowsThroughAlias() returns (a: Vector<int>, b: Vector<int>)
    ensures a.Valid() && b.Valid()
    ensures b.Contents() == [1, 2, 3, 4] && a.Contents() == [1, 2, 3, 4]
  {
    a := OneTwoThree();
    b := new Vector.Copy(a);
    b.PushBack(4);
  }

  /**
    `insert` at the end is `push_back` (vector.h:471-473), including its
    missing copy-on-write gate: inserting at the end of a copy with room
    shows in the original.
   */
  method InsertAtEndShowsThroughAlias() returns (a: Vector<int>, b: Vector<int>, r: nat)
    ensures a.Valid() && b.Valid() && r == 3
    ensures b.Contents() == [1, 2, 3, 4] && a.Contents() == [1, 2, 3, 4]
  {
    a := OneTwoThree();
    b := new Vector.Copy(a);
    r := b.Insert(3, 4);
  }

  /**
    The model's erase by index on a copy: it goes through the copy-on-write
    gate and then erases at the intended index in the private block, so the
    original keeps its elements and its counter drops back to 1. This is a
    property of the model only. In vector.h the iterators `first` and `last`
    still point into the shared block after `copy_if_necessary`
    (vector.h:526-538), and on this run the source's erase writes into the
    block `a` still uses.
   */
  method EraseAtCopyLeavesOriginal() returns (a: Vector<int>, b: Vector<int>)
    ensures a.Valid() && b.Valid()
    ensures a.Contents() == [1, 2, 3] && b.Contents() == [2, 3]
    ensures a.storage.Ptr? && a.storage.p != null && a.storage.p.refcount == 1
  {
    a := OneTwoThree();
    b := new Vector.Copy(a);
    var r := b.EraseAt(0);
  }

  /**
    Missing copy-on-write gate in the mutable `front()` (vector.h:323-328):
    writing through it on the copy `b` changes the shared block, so `a` sees
    the new first element too.
   */
  method SetFrontShowsThroughAlias() returns (a: Vector<int>, b: Vector<int>)
    ensures a.Valid() && b.Valid()
    ensures b.Contents() == [9, 2, 3] && a.Contents() == [9, 2, 3]
  {
    a := OneTwoThree();
    b := new Vector.Copy(a);
    b.SetFront(9);
  }

  /**
    Missing copy-on-write gate in the mutable `back()` (vector.h:337-342):
    writing through it on the copy `b` changes the shared block, so `a` sees
    the new last element too.
   */
  method SetBackShowsThroughAlias() returns (a: Vector<int>, b: Vector<int>)
    ensures a.Valid() && b.Valid()
    ensures b.Contents() == [1, 2, 9] && a.Contents() == [1, 2, 9]
  {
    a := OneTwoThree();
    b := new Vector.Copy(a);
    b.SetBack(9);
  }

  /**
    Missing copy-on-write gate in `pop_back` (vector.h:372-380): popping from
    the copy `b` shrinks the shared block, so `a` loses its last element too.
   */
  method PopBackShowsThroughAlias() returns (a: Vector<int>, b: Vector<int>)
    ensures a.Valid() && b.Valid()
    ensures b.Contents() == [1, 2] && a.Contents() == [1, 2]
  {
    a := OneTwoThree();
    b := new Vector.Copy(a);
    b.PopBack();
  }

  /**
    Counter copied on growth (vector.h:655, 717, 725): `b` is a copy of a
    full `a`; pushing onto `b` moves it to a fresh block that inherits the
    counter 2 although `b` is its only holder, so when `b` goes away the block
    is left with counter 1 and is never freed.
   */
  method GrowthInheritsCounter() returns (a: Vector<int>, grown: Block<int>)
    ensures a.Valid() && a.Contents() == [1, 2]
    ensures grown.Valid() && grown.refcount == 1 && grown.Elements() == [1, 2, 3]
    ensures a.storage.Ptr? && a.storage.p != grown
  {
    a := OneTwo();
    var b := new Vector.Copy(a);
    assert a.storage.p.refcount == 2;
    b.PushBack(3);
    grown := b.storage.p;
    assert grown.refcount == 2 && a.storage.p.refcount == 1;
    b.Dispose();
  }

  /**
    Range construction from an empty range (vector.h:277-281) gives a block of
    capacity 0; the first `push_back` goes inline and drops the pointer to
    that block without releasing it (vector.h:352-355), so it is never freed.
   */
  method EmptyRangeBlockLeaks() returns (v: Vector<int>, dropped: Block<int>)
    ensures v.Valid() && v.Contents() == [7] && v.storage == Inline(7)
    ensures dropped.refcount == 1 && !dropped.freed
  {
    v := new Vector.FromRange([]);
    dropped := v.storage.p;
    v.PushBack(7);
  }

  /** Inline `insert` at the front (vector.h:510-513) puts the new value second. */
  method InlineInsertAtFront() returns (v: Vector<int>, r: nat)
    ensures v.Valid() && r == 0
    ensures v.Contents() == [1, 2] && v.Contents() != [2] + [1]
  {
    v := new Vector.FromRange([1]);
    r := v.Insert(0, 2);
    assert v.Contents()[0] == 1 != ([2] + [1])[0];
  }

  /**
    A heap `insert` followed by `erase` at the same index gives back the
    original elements, and `erase` of an empty range changes nothing.
   */
  method InsertThenEraseRestores() returns (v: Vector<int>, r: nat)
    ensures v.Valid() && v.Contents() == [1, 2, 3] && r == 1
  {
    v := OneTwoThree();
    var k := v.Insert(1, 9);
    assert v.Contents() == [1, 9, 2, 3];
    r := v.Erase(k, k + 1);
    InsertThenErase([1, 2, 3], 1, 9);
    var e := v.Erase(2, 2);
  }

  /**
    The first `push_back` onto an empty vector stores the element inline with
    capacity 1; the second promotes to a block of capacity 2 with counter 1.
   */
  method InlineThenPromoted() returns (v: Vector<int>, capAfterFirst: nat)
    ensures capAfterFirst == 1
    ensures v.Valid() && v.Contents() == [1, 2] && v.Capacity() == 2
    ensures v.storage.Ptr? && v.storage.p != null && v.storage.p.refcount == 1
  {
    v := new Vector();
    v.PushBack(1);
    assert v.storage == Inline(1);
    capAfterFirst := v.Capacity();
    v.PushBack(2);
  }

  /**
    A block shared by two vectors survives the destruction of the first and
    is freed by the destruction of the second (vector.h:252-260, 666-671).
   */
  method SharedBlockFreedByLastHolder() returns (shared: Block<int>, freedEarly: bool)
    ensures !freedEarly
    ensures shared.freed && shared.refcount == 0
  {
    var a := OneTwoThree();
    var b := new Vector.Copy(a);
    shared := a.storage.p;
    a.Dispose();
    freedEarly := shared.freed;
    b.Dispose();
  }

  /**
    Under-allocating copy-on-write as written (vector.h:736-739): the private
    copy of `a`'s shared block records capacity 4 but has 3 slots, so the
    next `push_back`, seeing size 3 below capacity 4, writes a fourth slot
    that does not exist.
   */
  method UnderAllocatedCopy() returns (b: Vector<int>)
    ensures b.storage.Ptr? && b.storage.p != null
    ensures b.storage.p.size == 3 && b.storage.p.capacity == 4 && b.storage.p.slots.Length == 3
  {
    var a := OneTwoThree();
    b := new Vector.Copy(a);
    b.CopyIfNecessaryAsWritten();
  }

  /** The corrected copy-on-write keeps a slot for every unit of recorded capacity. */
  method CorrectedCopyKeepsRoom() returns (b: Vector<int>)
    ensures b.Valid() && b.Contents() == [1, 2, 3]
    ensures b.storage.Ptr? && b.storage.p != null
    ensures b.storage.p.size == 3 && b.storage.p.capacity == 4 && b.storage.p.slots.Length == 4
  {
    var a := OneTwoThree();
    b := new Vector.Copy(a);
    b.CopyIfNecessary();
  }
}
