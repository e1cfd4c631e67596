/** A reference-counted owning pointer. The pointee and the heap counter are
    objects; deletion is a ghost `freed` flag. Each counter records, as a
    ghost set, the handles that currently share it, so the invariant "the
    count equals the number of live handles" can be stated and kept. */
module SharedPointer {

  /** An object allocated by the caller and handed to a `SharedPtr`. */
  class Managed<T> {
    var value: T
    ghost var freed: bool
    /** The counter created when the object was handed to a `SharedPtr`. */
    ghost var counter: RefCount?<T>

    constructor (v: T)
      ensures value == v && !freed && counter == null
    {
      value, freed, counter := v, false, null;
    }
  }

  /** The shared `int` counter allocated next to the first owner. */
  class RefCount<T> {
    var count: int
    ghost var owners: set<SharedPtr<T>>
    ghost var target: Managed<T>
    ghost var freed: bool

    /** The count is the number of owning handles, every one of which points
        at this counter and at its object, and neither has been deleted. */
    ghost predicate Inv()
      reads this, owners, target
    {
      count == |owners| && !freed && !target.freed && target.counter == this &&
      forall h :: h in owners ==> h.refCount == this && h.ptr == target
    }

    constructor (h: SharedPtr<T>, t: Managed<T>)
      ensures count == 1 && owners == {h} && target == t && !freed
    {
      count, owners, target, freed := 1, {h}, t, false;
    }
  }

  class SharedPtr<T> {
    var ptr: Managed?<T>
    var refCount: RefCount?<T>

    ghost function Repr(): set<object>
      reads this, refCount
    {
      if refCount == null then {this}
      else {this, refCount as RefCount<T>, refCount.target} + refCount.owners
    }

    /** A null handle has no counter; a non-null one is one of the owners
        its counter records. */
    ghost predicate Valid()
      reads Repr()
    {
      (ptr == null <==> refCount == null) &&
      (refCount != null ==> this in refCount.owners && refCount.Inv())
    }

    /** `SharedPtr(T* ptr)`: a counter of 1 for a non-null pointer, none for
        null. */
    constructor (p: Managed?<T>)
      requires p != null ==> !p.freed && p.counter == null
      modifies p
      ensures Valid() && ptr == p
      ensures p != null ==> fresh(refCount) && refCount.owners == {this} && p.counter == refCount
      ensures p != null ==> p.value == old(p.value) && p.freed == old(p.freed)
      ensures p == null ==> refCount == null
    {
      ptr := p;
      refCount := null;
      new;
      if p != null {
        refCount := new RefCount(this, p);
        p.counter := refCount;
      }
    }

    /** The copy constructor: shares the pointer and the counter and adds one
        to the count. */
    constructor Copy(other: SharedPtr<T>)
      requires other.Valid()
      modifies other.refCount
      ensures Valid() && other.Valid()
      ensures ptr == other.ptr && refCount == other.refCount
      ensures refCount != null ==>
                refCount.count == old(other.refCount.count) + 1 &&
                refCount.owners == old(other.refCount.owners) + {this}
    {
      ptr := other.ptr;
      refCount := other.refCount;
      new;
      if refCount != null {
        refCount.count := refCount.count + 1;
        refCount.owners := refCount.owners + {this};
      }
    }

    /** The move constructor: takes the pointer and the counter unchanged and
        leaves `other` null. */
    constructor Move(other: SharedPtr<T>)
      requires other.Valid()
      modifies other, other.refCount
      ensures Valid() && other.Valid()
      ensures ptr == old(other.ptr) && refCount == old(other.refCount)
      ensures other.ptr == null && other.refCount == null
      ensures refCount != null ==>
                refCount.count == old(other.refCount.count) &&
                refCount.owners == old(other.refCount.owners) - {other} + {this}
    {
      ptr := other.ptr;
      refCount := other.refCount;
      new;
      if refCount != null {
        refCount.owners := refCount.owners - {other} + {this};
      }
      other.ptr := null;
      other.refCount := null;
    }

    function Get(): (p: Managed?<T>)
      reads this
      ensures p == ptr
    {
      ptr
    }

    /** `use_count`: the number of handles sharing the counter, 0 for null. */
    function UseCount(): (n: int)
      reads Repr()
      requires Valid()
      ensures refCount == null ==> n == 0
      ensures refCount != null ==> n == |refCount.owners| && n >= 1
    {
      if refCount == null then 0 else refCount.count
    }

    /** `unique`: this handle is the only owner. */
    function Unique(): (b: bool)
      reads Repr()
      requires Valid()
      ensures b <==> refCount != null && refCount.owners == {this}
    {
      UniqueCount(refCount == null, this, if refCount == null then {} else refCount.owners);
      refCount != null && refCount.count == 1
    }

    /** Copy assignment: releases the old share, then shares `other`'s
        pointer and counter; self-assignment changes nothing. */
    method CopyAssign(other: SharedPtr<T>)
      requires Valid() && other.Valid()
      modifies this, refCount, ptr, other.refCount
      ensures Valid() && other.Valid()
      ensures other == this ==>
                ptr == old(ptr) && refCount == old(refCount) &&
                (refCount != null ==> refCount.count == old(refCount.count))
      ensures other != this ==> ptr == other.ptr && refCount == other.refCount
      ensures other != this && refCount != null ==>
                refCount.owners == old(other.refCount.owners) - {this} + {this}
      ensures other != this && old(refCount) != null && old(refCount) != old(other.refCount) ==>
                old(refCount).owners == old(refCount.owners) - {this} &&
                (old(refCount.count) == 1 <==> old(ptr).freed)
    {
      if this != other {
        assert other.refCount != null && other.refCount != refCount ==>
          this !in other.refCount.owners && other.ptr != ptr;
        Release();
        Share(other);
      }
    }

    /** The second half of copy assignment: a null handle that is not among
        `other`'s co-owners joins them. */
    method Share(other: SharedPtr<T>)
      requires ptr == null && refCount == null && other.Valid() && this !in other.Repr()
      modifies this, other.refCount
      ensures Valid() && other.Valid()
      ensures ptr == other.ptr && refCount == other.refCount
      ensures refCount != null ==>
                refCount.count == old(other.refCount.count) + 1 &&
                refCount.owners == old(other.refCount.owners) + {this}
    {
      ptr := other.ptr;
      refCount := other.refCount;
      if refCount != null {
        refCount.count := refCount.count + 1;
        refCount.owners := refCount.owners + {this};
      }
    }

    /** Move assignment: releases the old share, then takes `other`'s pointer
        and counter and nulls `other`; self-assignment changes nothing. */
    method MoveAssign(other: SharedPtr<T>)
      requires Valid() && other.Valid()
      modifies this, refCount, ptr, other, other.refCount
      ensures Valid() && other.Valid()
      ensures other == this ==>
                ptr == old(ptr) && refCount == old(refCount) &&
                (refCount != null ==> refCount.count == old(refCount.count))
      ensures other != this ==>
                ptr == old(other.ptr) && refCount == old(other.refCount) &&
                other.ptr == null && other.refCount == null
      ensures other != this && refCount != null ==>
                refCount.owners == old(other.refCount.owners) - {this, other} + {this}
      ensures other != this && old(refCount) != null && old(refCount) != old(other.refCount) ==>
                old(refCount).owners == old(refCount.owners) - {this} &&
                (old(refCount.count) == 1 <==> old(ptr).freed)
    {
      if this != other {
        assert other.refCount != null && other.refCount != refCount ==>
          this !in other.refCount.owners && other.ptr != ptr;
        Release();
        TakeOver(other);
      }
    }

    /** The second half of move assignment: a null handle that is not among
        `other`'s co-owners takes `other`'s place among them. */
    method TakeOver(other: SharedPtr<T>)
      requires ptr == null && refCount == null && other.Valid() && this !in other.Repr()
      modifies this, other, other.refCount
      ensures Valid() && other.Valid()
      ensures ptr == old(other.ptr) && refCount == old(other.refCount)
      ensures other.ptr == null && other.refCount == null
      ensures refCount != null ==>
                refCount.count == old(other.refCount.count) &&
                refCount.owners == old(other.refCount.owners) - {other} + {this}
    {
      ptr := other.ptr;
      refCount := other.refCount;
      if refCount != null {
        refCount.owners := refCount.owners - {other} + {this};
      }
      other.ptr := null;
      other.refCount := null;
    }

    /** `release`: gives up this handle's share, deleting the object and the
        counter when it was the last one, and nulls the handle. */
    method Release()
      requires Valid()
      modifies this, refCount, ptr
      ensures ptr == null && refCount == null && Valid()
      ensures old(ptr) != null ==> old(ptr).value == old(ptr.value) && old(ptr).counter == old(ptr.counter)
      ensures old(refCount) != null ==>
                old(refCount).count == old(refCount.count) - 1 &&
                old(refCount).owners == old(refCount.owners) - {this} &&
                (old(refCount.count) == 1 <==> old(ptr).freed && old(refCount).freed)
      ensures old(refCount) != null && old(refCount.count) > 1 ==>
                old(refCount).Inv() && old(ptr).freed == old(ptr.freed)
    {
      if refCount != null {
        refCount.count := refCount.count - 1;
        refCount.owners := refCount.owners - {this};
        if refCount.count == 0 {
          ptr.freed := true;
          refCount.freed := true;
        }
      }
      ptr := null;
      refCount := null;
    }
  }

  lemma UniqueCount<T>(isNull: bool, h: SharedPtr<T>, owners: set<SharedPtr<T>>)
    requires h in owners || isNull
    ensures !isNull ==> (|owners| == 1 <==> owners == {h})
  {
    if !isNull && |owners| == 1 {
      var x :| x in owners;
      assert |owners - {x}| == 0;
      assert owners == {x};
    }
  }

  /** Construction from a fresh object: one owner. */
  method BasicConstruction() returns (value: int, count: int)
    ensures value == 10 && count == 1
  {
    var obj := new Managed(10);
    var p := new SharedPtr(obj);
    value, count := p.Get().value, p.UseCount();
  }

  /** A copy shares the counter: both handles report two owners. */
  method CopyConstruction() returns (first: int, second: int, same: bool)
    ensures first == 2 && second == 2 && same
  {
    var obj := new Managed(20);
    var p1 := new SharedPtr(obj);
    var p2 := new SharedPtr.Copy(p1);
    first, second, same := p1.UseCount(), p2.UseCount(), p1.Get() == p2.Get();
  }

  /** A move leaves the source null and the count at one. */
  method MoveConstruction() returns (sourceNull: bool, count: int, value: int)
    ensures sourceNull && count == 1 && value == 30
  {
    var obj := new Managed(30);
    var p1 := new SharedPtr(obj);
    var p2 := new SharedPtr.Move(p1);
    sourceNull, count, value := p1.Get() == null, p2.UseCount(), p2.Get().value;
  }

  /** Copy assignment into a null handle: two owners. */
  method CopyAssignment() returns (first: int, second: int)
    ensures first == 2 && second == 2
  {
    var obj := new Managed(40);
    var p1 := new SharedPtr(obj);
    var p2 := new SharedPtr(null);
    p2.CopyAssign(p1);
    first, second := p1.UseCount(), p2.UseCount();
  }

  /** Move assignment into a null handle: the source becomes null. */
  method MoveAssignment() returns (sourceNull: bool, count: int, value: int)
    ensures sourceNull && count == 1 && value == 50
  {
    var obj := new Managed(50);
    var p1 := new SharedPtr(obj);
    var p2 := new SharedPtr(null);
    p2.MoveAssign(p1);
    sourceNull, count, value := p1.Get() == null, p2.UseCount(), p2.Get().value;
  }

  /** `unique` holds for a sole owner and fails for both handles once a
      copy exists. */
  method UniqueOwnership() returns (alone: bool, original: bool, copy: bool)
    ensures alone && !original && !copy
  {
    var obj := new Managed(60);
    var p := new SharedPtr(obj);
    alone := p.Unique();
    var q := new SharedPtr.Copy(p);
    original, copy := p.Unique(), q.Unique();
  }

  /** Releasing one of two handles nulls it; the other sees one owner. */
  method ReleaseOwnership() returns (releasedNull: bool, releasedCount: int, otherCount: int)
    ensures releasedNull && releasedCount == 0 && otherCount == 1
  {
    var obj := new Managed(70);
    var p1 := new SharedPtr(obj);
    var p2 := new SharedPtr.Copy(p1);
    p1.Release();
    releasedNull, releasedCount, otherCount := p1.Get() == null, p1.UseCount(), p2.UseCount();
  }

  /** A null handle: no pointee, no owners, not unique. */
  method NullBehaviour() returns (isNull: bool, count: int, unique: bool)
    ensures isNull && count == 0 && !unique
  {
    var p := new SharedPtr<int>(null);
    isNull, count, unique := p.Get() == null, p.UseCount(), p.Unique();
  }
}
