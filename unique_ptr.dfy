/** An exclusively owning pointer. The pointee records, as a ghost field,
    which handle owns it, and deletion is a ghost `freed` flag; copying does
    not exist, so the only ways to pass ownership are the two moves,
    `release` and `reset`. */
module UniquePointer {

  class Owned<T> {
    var value: T
    ghost var freed: bool
    ghost var owner: UniquePtr?<T>

    constructor (v: T)
      ensures value == v && !freed && owner == null
    {
      value, freed, owner := v, false, null;
    }
  }

  /** A raw pointer that nobody owns yet and that is still allocated: what
      the caller may hand over. */
  ghost predicate Adoptable<T>(p: Owned?<T>)
    reads p
  {
    p != null ==> !p.freed && p.owner == null
  }

  class UniquePtr<T> {
    var ptr: Owned?<T>

    /** The pointee, if any, is live and owned by this handle and by no
        other. */
    ghost predicate Valid()
      reads this, ptr
    {
      ptr != null ==> !ptr.freed && ptr.owner == this
    }

    /** `explicit UniquePtr(T* ptr = nullptr)`. */
    constructor (p: Owned?<T>)
      requires Adoptable(p)
      modifies p
      ensures Valid() && ptr == p
      ensures p != null ==> p.value == old(p.value)
    {
      ptr := p;
      new;
      if p != null {
        p.owner := this;
      }
    }

    /** The move constructor: takes `other`'s pointer and nulls it. */
    constructor Move(other: UniquePtr<T>)
      requires other.Valid()
      modifies other, other.ptr
      ensures Valid() && other.Valid()
      ensures ptr == old(other.ptr) && other.ptr == null
      ensures ptr != null ==> ptr.value == old(other.ptr.value)
    {
      ptr := other.ptr;
      new;
      if ptr != null {
        ptr.owner := this;
      }
      other.ptr := null;
    }

    /** Move assignment: deletes the current pointee, takes `other`'s and
        nulls `other`; a self-move changes nothing. */
    method MoveAssign(other: UniquePtr<T>)
      requires Valid() && other.Valid()
      modifies this, ptr, other, other.ptr
      ensures Valid() && other.Valid()
      ensures other == this ==> ptr == old(ptr)
      ensures other != this ==> ptr == old(other.ptr) && other.ptr == null
      ensures other != this && old(ptr) != null ==> old(ptr).freed
      ensures other != this && ptr != null ==> ptr.value == old(other.ptr.value)
      ensures other == this && ptr != null ==> ptr.value == old(ptr.value) && !ptr.freed
    {
      if this != other {
        if ptr != null {
          ptr.freed := true;
          ptr.owner := null;
        }
        ptr := other.ptr;
        if ptr != null {
          ptr.owner := this;
        }
        other.ptr := null;
      }
    }

    function Get(): (p: Owned?<T>)
      reads this
      ensures p == ptr
    {
      ptr
    }

    /** `release`: hands the pointee back to the caller undeleted and nulls
        the handle; the pointee is then adoptable again. */
    method Release() returns (p: Owned?<T>)
      requires Valid()
      modifies this, ptr
      ensures Valid() && ptr == null
      ensures p == old(ptr) && Adoptable(p)
      ensures p != null ==> p.value == old(p.value)
    {
      p := ptr;
      if p != null {
        p.owner := null;
      }
      ptr := null;
    }

    /** `reset(T* ptr = nullptr)`: deletes the current pointee and adopts `p`. */
    method Reset(p: Owned?<T>)
      requires Valid() && Adoptable(p)
      modifies this, ptr, p
      ensures Valid() && ptr == p
      ensures old(ptr) != null ==> old(ptr).freed
      ensures p != null ==> p.value == old(p.value)
    {
      if ptr != null {
        ptr.freed := true;
        ptr.owner := null;
      }
      ptr := p;
      if p != null {
        p.owner := this;
      }
    }

    /** The destructor deletes the pointee. */
    method Destroy()
      requires Valid()
      modifies this, ptr
      ensures ptr == null
      ensures old(ptr) != null ==> old(ptr).freed
    {
      if ptr != null {
        ptr.freed := true;
        ptr.owner := null;
      }
      ptr := null;
    }
  }

  /** Exclusive ownership: two valid handles never share a pointee. */
  lemma AtMostOneOwner<T>(a: UniquePtr<T>, b: UniquePtr<T>)
    requires a.Valid() && b.Valid() && a.ptr != null && a.ptr == b.ptr
    ensures a == b
  {
  }

  /** The default constructor yields null. */
  method DefaultIsNull() returns (isNull: bool)
    ensures isNull
  {
    var u := new UniquePtr<int>(null);
    isNull := u.Get() == null;
  }

  /** A move construction leaves the source null and the target owning. */
  method MoveConstruction() returns (sourceNull: bool, targetNull: bool)
    ensures sourceNull && !targetNull
  {
    var obj := new Owned(1);
    var u1 := new UniquePtr(obj);
    var u2 := new UniquePtr.Move(u1);
    sourceNull, targetNull := u1.Get() == null, u2.Get() == null;
  }

  /** Move assignment into a null handle, and a self-move that keeps the
      pointer. */
  method MoveAssignment() returns (sourceNull: bool, targetNull: bool, selfKept: bool)
    ensures sourceNull && !targetNull && selfKept
  {
    var obj := new Owned(1);
    var u1 := new UniquePtr(obj);
    var u2 := new UniquePtr(null);
    u2.MoveAssign(u1);
    sourceNull, targetNull := u1.Get() == null, u2.Get() == null;
    var before := u2.Get();
    u2.MoveAssign(u2);
    selfKept := u2.Get() == before && before != null;
  }

  /** `release` returns the pointee and nulls the handle; `reset` with a new
      pointee stores it and with null empties the handle. */
  method ReleaseAndReset() returns (released: bool, nowNull: bool, resetKept: bool, resetNull: bool)
    ensures released && nowNull && resetKept && resetNull
  {
    var a := new Owned(1);
    var u := new UniquePtr(a);
    var raw := u.Release();
    released, nowNull := raw == a, u.Get() == null;
    var b := new Owned(2);
    var c := new Owned(3);
    var v := new UniquePtr(b);
    v.Reset(c);
    resetKept := v.Get() == c;
    v.Reset(null);
    resetNull := v.Get() == null;
  }
}
