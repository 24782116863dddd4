/**
  The container `vector<T>` of vector.h: a dynamic array that keeps a single
  element inline and otherwise points to a reference-counted heap block that
  copies of the vector share until one of them writes (copy-on-write).

  The storage is the two-alternative variant of vector.h:582: alternative 0
  is a pointer to a heap block (null for an empty vector), alternative 1 a
  single element held in the vector itself. Iterators are indices.
 */
module CowVector {
  import opened HeapBlock

  /** `std::variant<info_pointer, value_type>`: `Ptr` is index 0, `Inline` index 1. */
  datatype Storage<T(0)> = Ptr(p: Block?<T>) | Inline(value: T)

  /** The heap block a storage value points to, or null. */
  function BlockOf<T(0)>(s: Storage<T>): Block?<T>
  {
    if s.Ptr? then s.p else null
  }

  /** The sequence with `v` placed at index `k`, everything from `k` on moved one up. */
  function Inserted<T>(s: seq<T>, k: nat, v: T): (r: seq<T>)
    requires k <= |s|
    ensures |r| == |s| + 1 && r[k] == v
    ensures forall i :: 0 <= i < k ==> r[i] == s[i]
    ensures forall i :: k < i < |r| ==> r[i] == s[i - 1]
  {
    s[..k] + [v] + s[k..]
  }

  /** The sequence without the index range `[i, j)`, the tail moved down to `i`. */
  function Erased<T>(s: seq<T>, i: nat, j: nat): (r: seq<T>)
    requires i <= j <= |s|
    ensures |r| == |s| - (j - i)
    ensures forall k :: 0 <= k < i ==> r[k] == s[k]
    ensures forall k :: i <= k < |r| ==> r[k] == s[k + (j - i)]
  {
    s[..i] + s[j..]
  }

  /**
    The capacity after one `push_back` onto a vector of `size` elements and
    capacity `cap`: an empty vector without capacity goes inline (1), a full
    one doubles, one with room keeps its capacity.
   */
  function GrownCapacity(size: nat, cap: nat): (r: nat)
    requires size <= cap
    ensures size < r && cap <= r
    ensures size < cap ==> r == cap
  {
    if cap == 0 then 1 else if size == cap then 2 * cap else cap
  }

  /** Erasing what was just inserted gives back the original sequence. */
  lemma InsertThenErase<T>(s: seq<T>, k: nat, v: T)
    requires k <= |s|
    ensures Erased(Inserted(s, k, v), k, k + 1) == s
  {
    var r := Erased(Inserted(s, k, v), k, k + 1);
    assert |r| == |s|;
    forall i | 0 <= i < |s| ensures r[i] == s[i] {
      if i >= k {
        assert r[i] == Inserted(s, k, v)[i + 1];
      }
    }
  }

  /** Inserting at the end appends. */
  lemma InsertAtEnd<T>(s: seq<T>, v: T)
    ensures Inserted(s, |s|, v) == s + [v]
  {
    assert s[|s|..] == [];
  }

  /** Erasing an empty range changes nothing. */
  lemma EraseEmptyRange<T>(s: seq<T>, i: nat)
    requires i <= |s|
    ensures Erased(s, i, i) == s
  {
    assert s[..i] + s[i..] == s;
  }

  class Vector<T(0)> {
    /** The variant of vector.h:582. */
    var storage: Storage<T>

    /** The header object of the heap block, if any. */
    ghost function Blocks(): set<object>
      reads this
    {
      if storage.Ptr? && storage.p != null then {storage.p} else {}
    }

    /** The header object and the element slots of the heap block, if any. */
    ghost function Footprint(): set<object>
      reads this
    {
      if storage.Ptr? && storage.p != null then {storage.p, storage.p.slots} else {}
    }

    /** A heap block in use, whose recorded capacity is its allocated slot count. */
    ghost predicate Valid()
      reads this, Footprint()
    {
      storage.Ptr? && storage.p != null ==> storage.p.Valid()
    }

    /** The elements, front to back. */
    ghost function Contents(): seq<T>
      reads this, Footprint()
      requires Valid()
    {
      match storage
      case Inline(x) => [x]
      case Ptr(b) => if b == null then [] else b.Elements()
    }

    /** `empty()` (vector.h:428-431). */
    function Empty(): (r: bool)
      reads this, Footprint()
      requires Valid()
      ensures r <==> Contents() == []
    {
      storage.Ptr? && (storage.p == null || storage.p.size == 0)
    }

    /** `size()` (vector.h:433-435). */
    function Size(): (n: nat)
      reads this, Footprint()
      requires Valid()
      ensures n == |Contents()|
    {
      if storage.Ptr? then (if Empty() then 0 else storage.p.size) else 1
    }

    /** `capacity()` (vector.h:462-464). */
    function Capacity(): (c: nat)
      reads this, Footprint()
      requires Valid()
      ensures |Contents()| <= c
      ensures storage.Ptr? && storage.p != null ==> c == storage.p.slots.Length
    {
      if storage.Ptr? then (if storage.p != null then storage.p.capacity else 0) else 1
    }

    /** The const `operator[]` (vector.h:316-321). */
    function At(i: nat): (x: T)
      reads this, Footprint()
      requires Valid() && i < Size()
      ensures x == Contents()[i]
    {
      match storage
      case Inline(v) => v
      case Ptr(b) => b.slots[i]
    }

    /** The const `front()` (vector.h:330-335). */
    function Front(): (x: T)
      reads this, Footprint()
      requires Valid() && !Empty()
      ensures x == Contents()[0]
    {
      match storage
      case Inline(v) => v
      case Ptr(b) => b.slots[0]
    }

    /** The const `back()` (vector.h:344-349). */
    function Back(): (x: T)
      reads this, Footprint()
      requires Valid() && !Empty()
      ensures x == Contents()[|Contents()| - 1]
    {
      match storage
      case Inline(v) => v
      case Ptr(b) => b.slots[b.size - 1]
    }

    /** The default constructor: the null pointer alternative (vector.h:250). */
    constructor ()
      ensures Valid() && storage == Ptr(null)
      ensures Contents() == [] && Capacity() == 0
    {
      storage := Ptr(null);
    }

    /**
      The copy constructor (vector.h:262-270): alias the other vector's block
      and count one more holder, or copy its inline element. (Its leading
      `free_check` sees the default null pointer and does nothing.)
     */
    constructor Copy(other: Vector<T>)
      requires other.Valid()
      modifies other.Blocks()
      ensures Valid() && other.Valid()
      ensures storage == other.storage && other.storage == old(other.storage)
      ensures Contents() == old(other.Contents())
      ensures var b := BlockOf(other.storage);
        b != null ==> b.Acquired()
    {
      storage := other.storage;
      new;
      if storage.Ptr? && storage.p != null {
        storage.p.Acquire();
      }
    }

    /**
      The range constructor (vector.h:272-284), the range given by its
      elements: one element is stored inline, any other count in a fresh block
      whose capacity is the count. An empty range therefore gets a non-null
      block of capacity 0.
     */
    constructor FromRange(s: seq<T>)
      ensures Valid() && fresh(Footprint()) && Contents() == s
      ensures |s| == 1 ==> storage == Inline(s[0])
      ensures |s| != 1 ==> (storage.Ptr? && storage.p != null && fresh(storage.p)
        && storage.p.capacity == |s| && storage.p.refcount == 1)
    {
      if |s| == 1 {
        storage := Inline(s[0]);
      } else {
        var b := new Block(|s|);
        forall i | 0 <= i < |s| {
          b.slots[i] := s[i];
        }
        b.size := |s|;
        storage := Ptr(b);
      }
    }

    /**
      The destructor (vector.h:252-260): an inline vector drops its element,
      a vector with a block releases it, and the block is freed when this was
      its last holder.
     */
    method Dispose()
      requires Valid()
      modifies this, Blocks()
      ensures old(storage).Inline? ==> storage == Ptr(null)
      ensures old(storage).Ptr? ==> storage == old(storage)
      ensures var b := BlockOf(old(storage));
        b != null ==> b.Released()
    {
      if !storage.Ptr? {
        storage := Ptr(null);
      } else if storage.p != null {
        storage.p.Release();
      }
    }

    /**
      Copy assignment (vector.h:286-298). Self-assignment does nothing.
      Otherwise the old block is released (and freed if this was its last
      holder), the other vector's storage is copied and its block gains a
      holder. When both vectors already share a block, its counter counts
      both of them, so it is at least 2.
     */
    method Assign(other: Vector<T>)
      requires Valid() && other.Valid()
      requires this != other && BlockOf(storage) != null && BlockOf(storage) == BlockOf(other.storage)
        ==> BlockOf(storage).refcount >= 2
      modifies this, Blocks(), other.Blocks()
      ensures Valid() && other.Valid()
      ensures storage == old(other.storage) && other.storage == old(other.storage)
      ensures Contents() == old(other.Contents())
      ensures var ob, nb := BlockOf(old(storage)), BlockOf(old(other.storage));
        ob != null && ob != nb ==>
          ob.Released()
      ensures var ob, nb := BlockOf(old(storage)), BlockOf(old(other.storage));
        nb != null && ob != nb ==> nb.Acquired()
      ensures var ob := BlockOf(old(storage));
        ob != null && ob == BlockOf(old(other.storage)) ==>
          ob.refcount == old(ob.refcount) && ob.size == old(ob.size) && ob.capacity == old(ob.capacity) && !ob.freed
    {
      if this == other {
        return;
      }
      if storage.Ptr? && storage.p != null {
        storage.p.Release();
      }
      storage := other.storage;
      if storage.Ptr? && storage.p != null {
        storage.p.Acquire();
      }
    }

    /** Member `swap` (vector.h:576-578): exchange the two variants. */
    method Swap(other: Vector<T>)
      requires Valid() && other.Valid()
      modifies this, other
      ensures Valid() && other.Valid()
      ensures storage == old(other.storage) && other.storage == old(storage)
      ensures Contents() == old(other.Contents()) && other.Contents() == old(Contents())
    {
      storage, other.storage := other.storage, storage;
    }

    /**
      `copy_if_necessary` (vector.h:734-750) on this vector's block: when the
      block is shared, give this vector a private copy with the same size and
      recorded capacity and a counter of 1, and count one holder less on the
      old block, whose elements stay as they are.

      Corrected: the copy allocates `capacity` slots. As written it allocates
      only `size` slots (vector.h:736-737); see CopyIfNecessaryAsWritten.
     */
    method CopyIfNecessary()
      requires Valid() && storage.Ptr? && storage.p != null
      modifies this, Blocks()
      ensures fresh(Footprint() - old(Footprint()))
      ensures Valid() && Contents() == old(Contents())
      ensures storage.Ptr? && storage.p != null && storage.p.refcount == 1
      ensures storage.p.capacity == old(storage.p.capacity)
      ensures var ob := old(storage.p);
        if old(ob.refcount) > 1 then
          fresh(storage.p) && fresh(storage.p.slots)
          && ob.Released()
        else
          storage == old(storage) && ob.size == old(ob.size) && ob.capacity == old(ob.capacity)
    {
      var ob := storage.p;
      if ob.refcount > 1 {
        var nb := new Block(ob.capacity);
        nb.size := ob.size;
        nb.capacity := ob.capacity;
        nb.refcount := 1;
        ob.refcount := ob.refcount - 1;
        CopyRange(ob.slots, 0, nb.slots, 0, ob.size);
        storage := Ptr(nb);
      }
    }

    /**
      `copy_if_necessary` as written (vector.h:734-750): the private copy
      records the old capacity but has only `size` slots, so while
      `size < capacity` the header promises a slot that was never allocated.
     */
    method CopyIfNecessaryAsWritten()
      requires Valid() && storage.Ptr? && storage.p != null
      modifies this, Blocks()
      ensures fresh(Footprint() - old(Footprint()))
      ensures storage.Ptr? && storage.p != null
      ensures var ob := old(storage.p);
        old(ob.refcount) > 1 ==>
          fresh(storage.p) && storage.p.slots.Length == old(ob.size)
          && storage.p.size == old(ob.size) && storage.p.capacity == old(ob.capacity)
          && storage.p.refcount == 1 && storage.p.slots[..] == old(ob.Elements())
          && ob.Released()
      ensures old(storage.p.refcount) == 1 ==> storage == old(storage) && unchanged(old(storage.p))
    {
      var ob := storage.p;
      if ob.refcount > 1 {
        var nb := new Block(ob.size);
        nb.size := ob.size;
        nb.capacity := ob.capacity;
        nb.refcount := 1;
        ob.refcount := ob.refcount - 1;
        CopyRange(ob.slots, 0, nb.slots, 0, ob.size);
        storage := Ptr(nb);
      }
    }

    /**
      The mutable `operator[]` followed by an assignment to the element
      (vector.h:307-314): a vector with a block first takes a private copy if
      the block is shared, so the write never shows through another vector.
     */
    method Set(i: nat, x: T)
      requires Valid() && i < Size()
      modifies this, Footprint()
      ensures fresh(Footprint() - old(Footprint()))
      ensures Valid() && Contents() == old(Contents())[i := x]
      ensures Capacity() == old(Capacity())
      ensures var ob := BlockOf(old(storage));
        ob != null && old(ob.refcount) > 1 ==>
          storage.Ptr? && storage.p != null && fresh(storage.p) && fresh(storage.p.slots) && storage.p.refcount == 1
          && ob.Released() && unchanged(ob.slots)
      ensures var ob := BlockOf(old(storage));
        ob != null && old(ob.refcount) == 1 ==> storage == old(storage)
      ensures old(storage).Ptr? ==> storage.Ptr? && storage.p != null && storage.p.refcount == 1
      ensures old(storage).Inline? ==> storage == Inline(x)
    {
      if storage.Ptr? {
        CopyIfNecessary();
        storage.p.slots[i] := x;
      } else {
        storage := Inline(x);
      }
    }

    /**
      The mutable `front()` followed by an assignment (vector.h:323-328). As
      written there is no copy-on-write gate: the element is overwritten in
      the block that every alias shares.
     */
    method SetFront(x: T)
      requires Valid() && !Empty()
      modifies this, Footprint()
      ensures fresh(Footprint() - old(Footprint()))
      ensures Valid() && Contents() == old(Contents())[0 := x]
      ensures old(storage).Inline? ==> storage == Inline(x)
      ensures old(storage).Ptr? ==> (storage == old(storage)
        && storage.p.size == old(storage.p.size) && storage.p.refcount == old(storage.p.refcount))
    {
      if storage.Ptr? {
        storage.p.slots[0] := x;
      } else {
        storage := Inline(x);
      }
    }

    /**
      The mutable `back()` followed by an assignment (vector.h:337-342), also
      without a copy-on-write gate.
     */
    method SetBack(x: T)
      requires Valid() && !Empty()
      modifies this, Footprint()
      ensures fresh(Footprint() - old(Footprint()))
      ensures Valid() && Contents() == old(Contents())[|old(Contents())| - 1 := x]
      ensures old(storage).Inline? ==> storage == Inline(x)
      ensures old(storage).Ptr? ==> (storage == old(storage)
        && storage.p.size == old(storage.p.size) && storage.p.refcount == old(storage.p.refcount))
    {
      if storage.Ptr? {
        storage.p.slots[storage.p.size - 1] := x;
      } else {
        storage := Inline(x);
      }
    }

    /**
      `only_push_back` (vector.h:698-707): construct `a` in the first free
      slot of the current block, without touching the header and without a
      copy-on-write gate.
     */
    method OnlyPushBack(a: T)
      requires Valid() && storage.Ptr? && storage.p != null && storage.p.size < storage.p.capacity
      modifies storage.p.slots
      ensures storage.p.slots[..] == old(storage.p.slots[..])[old(storage.p.size) := a]
    {
      storage.p.slots[storage.p.size] := a;
    }

    /**
      `allocate_and_push_back` (vector.h:632-664) on a full vector: an inline
      vector moves to a fresh block of capacity 2 with counter 1; a vector with
      a block moves to a fresh copy of twice the capacity, which as written
      inherits the old block's counter, and releases the old block. The new
      element is placed after the old ones; the header's size does not count
      it yet.
     */
    method AllocateAndPushBack(a: T)
      requires Valid() && !Empty() && Size() == Capacity()
      modifies this, Blocks()
      ensures fresh(Footprint() - old(Footprint()))
      ensures storage.Ptr? && storage.p != null && fresh(storage.p) && storage.p.Valid()
      ensures storage.p.size == old(Size()) < storage.p.capacity == 2 * old(Capacity())
      ensures storage.p.slots[..storage.p.size + 1] == old(Contents()) + [a]
      ensures old(storage).Inline? ==> storage.p.refcount == 1
      ensures var ob := BlockOf(old(storage));
        ob != null ==> (storage.p.refcount == old(ob.refcount)
          && ob.Released())
    {
      if !storage.Ptr? {
        var nb := new Block(2);
        nb.size := 1;
        nb.slots[0] := storage.value;
        nb.slots[1] := a;
        storage := Ptr(nb);
        return;
      }
      var ob := storage.p;
      var nb := AllocateAndCopy(ob.capacity * 2, ob);
      nb.slots[nb.size] := a;
      ob.Release();
      storage := Ptr(nb);
    }

    /**
      `push_back` (vector.h:351-370). An empty vector without capacity stores
      the element inline; a full vector reallocates; otherwise the element is
      constructed in the current block in place, WITHOUT a copy-on-write gate,
      so every vector sharing the block sees it.

      The inline path overwrites the pointer of an empty block of capacity 0
      (made by the range constructor from an empty range) without releasing
      it: that block keeps its counter and is never freed.
     */
    method PushBack(a: T)
      requires Valid()
      modifies this, Footprint()
      ensures fresh(Footprint() - old(Footprint()))
      ensures Valid()
      ensures Contents() == old(Contents()) + [a]
      ensures Capacity() == GrownCapacity(old(Size()), old(Capacity()))
      ensures old(Capacity()) == 0 ==> storage == Inline(a)
      ensures var ob := BlockOf(old(storage));
        ob != null && old(ob.capacity) == 0 ==> unchanged(ob)
      ensures old(storage).Inline? ==>
        storage.Ptr? && storage.p != null && fresh(storage.p) && storage.p.refcount == 1
      ensures var ob := BlockOf(old(storage));
        ob != null && 0 < old(ob.size) == old(ob.capacity) ==>
          storage.Ptr? && storage.p != null && fresh(storage.p) && storage.p.refcount == old(ob.refcount)
          && ob.Released() && unchanged(ob.slots)
      ensures var ob := BlockOf(old(storage));
        ob != null && old(ob.size) < old(ob.capacity) ==>
          storage == old(storage) && ob.size == old(ob.size) + 1 && ob.refcount == old(ob.refcount)
          && ob.capacity == old(ob.capacity) && ob.freed == old(ob.freed)
    {
      if Empty() {
        if Capacity() == 0 {
          storage := Inline(a);
          return;
        } else {
          OnlyPushBack(a);
        }
      } else if Size() == Capacity() {
        AllocateAndPushBack(a);
      } else {
        OnlyPushBack(a);
      }
      storage.p.size := storage.p.size + 1;
    }

    /**
      `pop_back` (vector.h:372-380) on a non-empty vector: an inline vector
      becomes the empty null pointer; a vector with a block shrinks the
      block's size in place, keeps the block and its capacity and never goes
      back to inline. There is no copy-on-write gate: every vector sharing
      the block loses the element.
     */
    method PopBack()
      requires Valid() && !Empty()
      modifies this, Blocks()
      ensures fresh(Footprint() - old(Footprint()))
      ensures Valid()
      ensures Contents() == old(Contents())[..|old(Contents())| - 1]
      ensures old(storage).Inline? ==> storage == Ptr(null)
      ensures old(storage).Ptr? ==> (storage == old(storage) && storage.p.capacity == old(storage.p.capacity)
        && storage.p.size == old(storage.p.size) - 1 && storage.p.refcount == old(storage.p.refcount))
    {
      if !storage.Ptr? && Size() == 1 {
        storage := Ptr(null);
      } else {
        storage.p.size := storage.p.size - 1;
      }
    }

    /** `convert` (vector.h:437-449): move the inline element into a fresh block of capacity 1. */
    method Convert()
      requires Valid() && storage.Inline?
      modifies this
      ensures fresh(Footprint() - old(Footprint()))
      ensures Valid() && Contents() == old(Contents())
      ensures storage.Ptr? && storage.p != null && fresh(storage.p) && fresh(storage.p.slots)
      ensures storage.p.capacity == 1 && storage.p.refcount == 1
    {
      var nb := new Block(1);
      nb.size := 1;
      nb.slots[0] := storage.value;
      storage := Ptr(nb);
    }

    /**
      `reserve` (vector.h:451-460): nothing happens unless `cap` exceeds the
      capacity; otherwise an inline vector is first converted, and the
      elements move to a fresh block of exactly `cap` slots. As written the
      fresh block inherits the counter of the block it was copied from, so
      reserving on a shared vector yields a block whose counter is above 1.
     */
    method Reserve(cap: nat)
      requires Valid()
      modifies this, Blocks()
      ensures fresh(Footprint() - old(Footprint()))
      ensures Valid() && Contents() == old(Contents())
      ensures var ob := BlockOf(old(storage));
        cap <= old(Capacity()) ==> storage == old(storage) && (ob != null ==> unchanged(ob))
      ensures var ob := BlockOf(old(storage));
        cap > old(Capacity()) ==> (Capacity() == cap && storage.Ptr? && storage.p != null && fresh(storage.p)
          && storage.p.refcount == (if ob == null then 1 else old(ob.refcount)))
      ensures var ob := BlockOf(old(storage));
        cap > old(Capacity()) && ob != null ==>
          ob.Released()
    {
      if cap > Capacity() {
        if !storage.Ptr? {
          Convert();
        }
        var nb := AllocateAndCopy(cap, storage.p);
        if storage.p != null {
          storage.p.Release();
        }
        storage := Ptr(nb);
      }
    }

    /**
      `insert` of one element before index `k` (vector.h:470-515). At the end
      it is `push_back`; otherwise a vector with a block rebuilds it
      (InsertInBlock) and an inline vector builds a two-element vector
      (InsertInline). The pre-check that throws "incorrect position"
      (vector.h:507-509) cannot fire for an index within `[0, size()]`.

      The result is the insertion index `k`. (As written, the heap path
      computes it from `pos` after the storage has moved to the new block,
      vector.h:505, which is not a position in the new block.)
     */
    method Insert(k: nat, v: T) returns (r: nat)
      requires Valid() && k <= Size()
      modifies this, Footprint()
      ensures fresh(Footprint() - old(Footprint()))
      ensures Valid() && r == k
      ensures Capacity() == GrownCapacity(old(Size()), old(Capacity()))
      ensures k == old(Size()) ==> Contents() == old(Contents()) + [v]
      ensures k == old(Size()) && old(Capacity()) == 0 ==> storage == Inline(v)
      ensures k == old(Size()) && old(storage).Inline? ==>
        storage.Ptr? && storage.p != null && fresh(storage.p) && storage.p.refcount == 1
      ensures var ob := BlockOf(old(storage));
        k == old(Size()) && ob != null && old(ob.capacity) == 0 ==> unchanged(ob)
      ensures var ob := BlockOf(old(storage));
        k == old(Size()) && ob != null && 0 < old(ob.size) == old(ob.capacity) ==>
          storage.Ptr? && storage.p != null && fresh(storage.p) && storage.p.refcount == old(ob.refcount)
          && ob.Released() && unchanged(ob.slots)
      ensures var ob := BlockOf(old(storage));
        k == old(Size()) && ob != null && old(ob.size) < old(ob.capacity) ==>
          storage == old(storage) && ob.size == old(ob.size) + 1 && ob.refcount == old(ob.refcount)
          && ob.capacity == old(ob.capacity) && ob.freed == old(ob.freed)
      ensures k < old(Size()) && old(storage).Ptr? ==> Contents() == Inserted(old(Contents()), k, v)
      ensures k < old(Size()) && old(storage).Inline? ==> Contents() == [old(storage).value, v]
      ensures k < old(Size()) ==> storage.Ptr? && storage.p != null && fresh(storage.p) && storage.p.refcount == 1
      ensures var ob := BlockOf(old(storage));
        k < old(Size()) && ob != null ==>
          ob.Released() && unchanged(ob.slots)
    {
      if k == Size() {
        PushBack(v);
        return k;
      }
      if storage.Ptr? {
        r := InsertInBlock(k, v);
      } else {
        r := InsertInline(v);
      }
    }

    /**
      The heap path of `insert` (vector.h:475-505): a fresh block with
      counter 1, twice the capacity if the old block was full, holding the
      elements before `k`, then `v`, then the rest; the old block is released
      and its elements are left as they are.
     */
    method InsertInBlock(k: nat, v: T) returns (r: nat)
      requires Valid() && storage.Ptr? && storage.p != null && k < storage.p.size
      modifies this, storage.p
      ensures fresh(Footprint() - old(Footprint()))
      ensures Valid() && r == k
      ensures Contents() == Inserted(old(Contents()), k, v)
      ensures storage.Ptr? && storage.p != null && fresh(storage.p) && storage.p.refcount == 1
      ensures storage.p.capacity == GrownCapacity(old(storage.p.size), old(storage.p.capacity))
      ensures var ob := old(storage.p);
        ob.Released()
    {
      var ob := storage.p;
      var nb := BuildInserted(ob, k, v);
      ob.Release();
      storage := Ptr(nb);
      return k;
    }

    /**
      The inline path of `insert` before the only element (vector.h:510-514):
      push the old element, then `v`, onto an empty buffer and swap it in. As
      written `v` ends up SECOND, so the result is `[old, v]`, not `[v, old]`.
     */
    method InsertInline(v: T) returns (r: nat)
      requires Valid() && storage.Inline?
      modifies this
      ensures fresh(Footprint() - old(Footprint()))
      ensures Valid() && r == 0
      ensures Contents() == [old(storage.value), v]
      ensures storage.Ptr? && storage.p != null && fresh(storage.p)
      ensures storage.p.refcount == 1 && storage.p.capacity == 2
    {
      var buffer := new Vector();
      buffer.PushBack(storage.value);
      buffer.PushBack(v);
      Swap(buffer);
      buffer.Dispose();
      return 0;
    }

    /**
      `erase` of the index range `[first, last)` (vector.h:521-574). An empty
      range changes nothing and returns `first`. A vector with a block first
      takes a private copy if the block is shared and then erases in that
      block (EraseInBlock). An inline vector pops its element and becomes
      empty. The result is `first`.
     */
    method Erase(first: nat, last: nat) returns (r: nat)
      requires Valid() && first <= last <= Size()
      modifies this, Footprint()
      ensures fresh(Footprint() - old(Footprint()))
      ensures Valid() && r == first
      ensures Contents() == Erased(old(Contents()), first, last)
      ensures var ob := BlockOf(old(storage));
        first == last ==> storage == old(storage) && (ob != null ==> unchanged(ob, ob.slots))
      ensures first < last && old(storage).Inline? ==> storage == Ptr(null)
      ensures first < last && old(storage).Ptr? ==>
        storage.Ptr? && storage.p != null && storage.p.refcount == 1 && Capacity() == old(Capacity())
      ensures var ob := BlockOf(old(storage));
        first < last && ob != null && old(ob.refcount) == 1 ==> storage == old(storage)
      ensures var ob := BlockOf(old(storage));
        first < last && ob != null && old(ob.refcount) > 1 ==>
          ob.Released() && unchanged(ob.slots)
    {
      if first == last {
        EraseEmptyRange(Contents(), first);
        return first;
      }
      if storage.Ptr? {
        CopyIfNecessary();
        r := EraseInBlock(first, last);
        return;
      }
      PopBack();
      return 0;
    }

    /**
      The in-block part of `erase` (vector.h:527-570) on a non-empty range:
      erasing a suffix shrinks the size; otherwise the tail moves down over
      the gap (ShiftTail) and the size becomes the number of elements before
      the gap plus the number after it. The capacity and the counter are kept.
     */
    method EraseInBlock(first: nat, last: nat) returns (r: nat)
      requires Valid() && storage.Ptr? && storage.p != null && first < last <= storage.p.size
      modifies storage.p, storage.p.slots
      ensures Valid() && r == first
      ensures storage.p.Elements() == Erased(old(storage.p.Elements()), first, last)
      ensures storage.p.capacity == old(storage.p.capacity) && storage.p.refcount == old(storage.p.refcount)
    {
      var b := storage.p;
      ghost var s := b.Elements();
      if last == b.size {
        b.size := b.size - (last - first);
        assert b.Elements() == Erased(s, first, last);
        return b.size;
      }
      var beginSize, endSize := first, b.size - last;
      ShiftTail(b.slots, first, last, b.size);
      b.size := beginSize + endSize;
      assert b.Elements() == Erased(s, first, last);
      return beginSize;
    }

    /** `erase` of the single element at index `k` (vector.h:517-519). */
    method EraseAt(k: nat) returns (r: nat)
      requires Valid() && k < Size()
      modifies this, Footprint()
      ensures fresh(Footprint() - old(Footprint()))
      ensures Valid() && r == k
      ensures Contents() == old(Contents())[..k] + old(Contents())[k + 1..]
      ensures old(storage).Inline? ==> storage == Ptr(null)
      ensures old(storage).Ptr? ==>
        storage.Ptr? && storage.p != null && storage.p.refcount == 1 && Capacity() == old(Capacity())
      ensures var ob := BlockOf(old(storage));
        ob != null && old(ob.refcount) == 1 ==> storage == old(storage)
      ensures var ob := BlockOf(old(storage));
        ob != null && old(ob.refcount) > 1 ==>
          ob.Released() && unchanged(ob.slots)
    {
      r := Erase(k, k + 1);
    }
  }

  /**
    The fresh block that the heap path of `insert` builds (vector.h:476-502):
    twice the capacity of `ob` if `ob` is full, otherwise the same; counter
    1; the elements of `ob` before `k`, then `v`, then the rest of `ob`.
   */
  method BuildInserted<T(0)>(ob: Block<T>, k: nat, v: T) returns (nb: Block<T>)
    requires ob.Valid() && k < ob.size
    ensures fresh(nb) && fresh(nb.slots) && nb.Valid() && nb.refcount == 1
    ensures nb.capacity == GrownCapacity(ob.size, ob.capacity)
    ensures nb.Elements() == Inserted(ob.Elements(), k, v)
  {
    var n := ob.size;
    var newCap := if n == ob.capacity then ob.capacity * 2 else ob.capacity;
    nb := new Block(newCap);
    CopyAround(ob.slots, n, k, v, nb.slots);
    nb.size, nb.refcount := n + 1, 1;
  }

  /**
    The element copies of the heap `insert` (vector.h:479, 489, 497): the
    first `k` of the `n` live elements of `src`, then `v`, then the rest, into
    the front of the distinct array `dst`.
   */
  method CopyAround<T>(src: array<T>, n: nat, k: nat, v: T, dst: array<T>)
    requires src != dst && k <= n <= src.Length && n < dst.Length
    modifies dst
    ensures dst[..n + 1] == Inserted(src[..n], k, v)
  {
    ghost var s := src[..n];
    CopyRange(src, 0, dst, 0, k);
    assert dst[..k] == s[..k];
    dst[k] := v;
    assert dst[..k + 1] == s[..k] + [v];
    CopyRange(src, k, dst, k + 1, n - k);
    assert dst[k + 1..n + 1] == s[k..];
    assert dst[..n + 1] == dst[..k + 1] + dst[k + 1..n + 1];
  }

  /**
    The element moves of an interior `erase` (vector.h:533-568) on the first
    `n` slots of `a`: the tail `a[last..n]` moves down to `first`. When the
    tail is no longer than the gap it is copied in one go; otherwise as many
    elements as the gap holds are copied and the rest are assigned one at a
    time, front to back (vector.h:559-561). Slots before `first` are kept.
   */
  method ShiftTail<T>(a: array<T>, first: nat, last: nat, n: nat)
    requires first < last < n <= a.Length
    modifies a
    ensures a[..first] == old(a[..first])
    ensures a[first..first + (n - last)] == old(a[last..n])
  {
    var eraseSize, endSize := last - first, n - last;
    if endSize <= eraseSize {
      CopyRange(a, last, a, first, endSize);
    } else {
      ShiftLongTail(a, first, last, n);
    }
  }

  /**
    The branch of `erase` whose tail is longer than the gap (vector.h:549-567):
    the first `last - first` tail elements are copied into the gap, then the
    rest of the tail is moved down behind them by assignment.
   */
  method ShiftLongTail<T>(a: array<T>, first: nat, last: nat, n: nat)
    requires first < last && last + (last - first) < n <= a.Length
    modifies a
    ensures a[..first] == old(a[..first])
    ensures a[first..first + (n - last)] == old(a[last..n])
  {
    var eraseSize := last - first;
    ghost var a0 := a[..];
    CopyRange(a, last, a, first, eraseSize);
    ghost var a1 := a[..];
    AssignDown(a, last, last + eraseSize, n);
    TwoStepShift(a0, a1, a[..], first, last, n);
  }

  /**
    The assignment loop of vector.h:559-561: `to` starts at `dest`, `from` at
    `src`, and each step assigns `a[to] := a[from]` and advances both until
    `from` reaches `end`. Slots outside `[dest, dest + (end - src))` keep
    their values.
   */
  method AssignDown<T>(a: array<T>, dest: nat, src: nat, end: nat)
    requires dest <= src <= end <= a.Length
    modifies a
    ensures a[..dest] == old(a[..dest]) && a[dest + (end - src)..] == old(a[dest + (end - src)..])
    ensures a[dest..dest + (end - src)] == old(a[src..end])
  {
    ghost var s := a[..];
    var to, from := dest, src;
    while from < end
      invariant dest <= to <= from <= end && from - to == src - dest
      invariant forall k :: dest <= k < to ==> a[k] == s[k + (src - dest)]
      invariant forall k :: from <= k < a.Length ==> a[k] == s[k]
      invariant forall k :: 0 <= k < a.Length && !(dest <= k < to) ==> a[k] == s[k]
    {
      a[to] := a[from];
      from, to := from + 1, to + 1;
    }
    assert a[dest..dest + (end - src)] == s[src..end];
  }

  /**
    The two copies of a long-tail `erase` together move `s0[last..n]` down
    to `first`: the first copy fills the gap `[first, last)` with the next
    `last - first` tail elements, the second moves the remaining tail down
    behind them.
   */
  lemma TwoStepShift<T>(s0: seq<T>, s1: seq<T>, s2: seq<T>, first: nat, last: nat, n: nat)
    requires first < last && last + (last - first) < n <= |s0| == |s1| == |s2|
    requires s1[..first] == s0[..first] && s1[first..last] == s0[last..last + (last - first)]
    requires s1[last..] == s0[last..]
    requires s2[..last] == s1[..last] && s2[last..n - (last - first)] == s1[last + (last - first)..n]
    ensures s2[..first] == s0[..first] && s2[first..first + (n - last)] == s0[last..n]
  {
    var g := last - first;
    assert s2[..first] == s2[..last][..first];
    assert s1[..first] == s1[..last][..first];
    assert s2[first..last] == s2[..last][first..] == s1[..last][first..] == s1[first..last];
    assert s1[last + g..n] == s1[last..][g..n - last];
    assert s0[last + g..n] == s0[last..][g..n - last];
    assert s2[first..n - g] == s2[first..last] + s2[last..n - g];
    assert s0[last..n] == s0[last..last + g] + s0[last + g..n];
  }

  /** The free `swap` (vector.h:755-758). */
  method Swap<T(0)>(a: Vector<T>, b: Vector<T>)
    requires a.Valid() && b.Valid()
    modifies a, b
    ensures a.Valid() && b.Valid()
    ensures a.storage == old(b.storage) && b.storage == old(a.storage)
    ensures a.Contents() == old(b.Contents()) && b.Contents() == old(a.Contents())
  {
    a.Swap(b);
  }
}
