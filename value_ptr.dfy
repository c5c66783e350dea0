/** `ValuePtr<T>`: a single-owner pointer with value semantics. Copying a box copies
    the object it holds; moving it hands the object over and leaves the source null.
    All behaviour is on the one field `m_ptr` and on the heap objects it points to.

    The box's static type `T` is the constant `declared`. A box may hold an object of
    a type derived from `T`; the objects' dynamic types are the heap objects' tags.
    Whether a conversion or an operation is available for a pair of types (default
    constructible, copyable, derived from) is decided by the C++ compiler and is not
    modelled: every operation below is the one that is selected when it compiles. */
module ValuePtrs {
  import opened Memory

  class ValuePtr<V> {
    /** `T`, the class type the box is declared over. */
    const declared: TypeName
    /** `m_ptr`. */
    var ptr: Ptr

    /** The box owns a live object: the state every constructor leaves, and the one
        in which `*` and `->` are defined. */
    ghost predicate Owns(h: Heap<V>)
      reads this, h
    {
      h.Live(ptr)
    }

    /** The box owns a live object or is null (moved from or released), so deleting
        its pointer is defined. */
    ghost predicate Valid(h: Heap<V>)
      reads this, h
    {
      ptr == Null || h.Live(ptr)
    }

    /** `ValuePtr()`: holds a fresh value-initialised `T`; `init` is that value. */
    constructor Default(t: TypeName, h: Heap<V>, init: V)
      requires h.Valid()
      modifies h
      ensures h.Valid() && declared == t && Owns(h)
      ensures ptr.addr !in old(h.objects)
      ensures h.objects == old(h.objects)[ptr.addr := Object(t, init)]
    {
      var p := h.New(t, init);
      declared := t;
      ptr := p;
    }

    /** `ValuePtr(T*)` and `ValuePtr(U*)` for `U` derived from `T`: adopts `p` as it is and
        allocates nothing; the object keeps its own dynamic type. */
    constructor Adopt(t: TypeName, p: Ptr)
      ensures declared == t && ptr == p
    {
      declared := t;
      ptr := p;
    }

    /** `ValuePtr(const ValuePtr&)`: a new box holding a fresh object constructed as `new T(*v)`,
        with the value of the object `v` holds. The object's type is the box's static type
        `T`, not the dynamic type of the object `v` holds. */
    constructor Copy(h: Heap<V>, v: ValuePtr<V>)
      requires h.Valid() && v.Owns(h)
      modifies h
      ensures h.Valid() && declared == v.declared && Owns(h)
      ensures ptr.addr !in old(h.objects)
      ensures h.objects == old(h.objects)[ptr.addr := Object(v.declared, old(h.objects)[v.ptr.addr].value)]
    {
      var p := h.New(v.declared, h.objects[v.ptr.addr].value);
      declared := v.declared;
      ptr := p;
    }

    /** `ValuePtr<T>(const ValuePtr<U>&)` for `U` derived from `T`: a box of static type `t`
        holding a fresh object constructed as `new U(*v)`, where `U` is `v`'s static type. */
    constructor CopyFromDerived(t: TypeName, h: Heap<V>, v: ValuePtr<V>)
      requires h.Valid() && v.Owns(h)
      modifies h
      ensures h.Valid() && declared == t && Owns(h)
      ensures ptr.addr !in old(h.objects)
      ensures h.objects == old(h.objects)[ptr.addr := Object(v.declared, old(h.objects)[v.ptr.addr].value)]
    {
      var p := h.New(v.declared, h.objects[v.ptr.addr].value);
      declared := t;
      ptr := p;
    }

    /** `ValuePtr(ValuePtr&&)`: takes `v`'s pointer and leaves `v` null. */
    constructor Move(v: ValuePtr<V>)
      modifies v
      ensures declared == v.declared
      ensures ptr == old(v.ptr) && v.ptr == Null
    {
      var p := v.Release();
      declared := v.declared;
      ptr := p;
    }

    /** `ValuePtr<T>(ValuePtr<U>&&)` for `U` derived from `T`: as `Move`, into a box of static type `t`. */
    constructor MoveFromDerived(t: TypeName, v: ValuePtr<V>)
      modifies v
      ensures declared == t
      ensures ptr == old(v.ptr) && v.ptr == Null
    {
      var p := v.Release();
      declared := t;
      ptr := p;
    }

    /** `~ValuePtr()`: deletes the object held, if any, and nothing else. */
    method Destroy(h: Heap<V>)
      requires h.Valid() && Valid(h)
      modifies h
      ensures h.Valid()
      ensures h.objects == old(h.objects) - AddrOf(ptr)
    {
      h.Delete(ptr);
    }

    /** `operator=(const ValuePtr&)`: `*m_ptr = *v.m_ptr`. The box keeps its object, and the
        object its dynamic type; only the object's value changes, to `v`'s. Nothing is
        allocated or deleted, and `v` is unchanged. */
    method CopyAssign(h: Heap<V>, v: ValuePtr<V>)
      requires h.Valid() && Owns(h) && v.Owns(h)
      modifies h
      ensures h.Valid() && Owns(h)
      ensures h.objects == old(h.objects)[ptr.addr := Object(old(h.objects)[ptr.addr].tag, old(h.objects)[v.ptr.addr].value)]
    {
      h.Assign(ptr, h.objects[v.ptr.addr].value);
    }

    /** `operator=(ValuePtr&&)` and `operator=(ValuePtr<U>&&)`: `reset(v.release())`. The box
        takes `v`'s pointer and deletes its own former object; `v` is left null. On
        self-move, `release` nulls `m_ptr` before `reset` reads it, so the box keeps its
        pointer and nothing is deleted. If another box shared this box's object, that object
        is deleted and the box is left dangling. */
    method MoveAssign(h: Heap<V>, v: ValuePtr<V>)
      requires h.Valid()
      requires v != this ==> Valid(h)
      modifies this, v, h
      ensures h.Valid()
      ensures ptr == old(v.ptr)
      ensures v != this ==> v.ptr == Null
      ensures h.objects == if v == this then old(h.objects) else old(h.objects) - AddrOf(old(ptr))
      ensures v != this && old(ptr) == old(v.ptr) && old(ptr) != Null ==> !h.Live(ptr)
    {
      var p := v.Release();
      Reset(h, p);
    }

    /** `release()`: returns the pointer held and leaves the box null, deleting nothing. */
    method Release() returns (p: Ptr)
      modifies this
      ensures p == old(ptr) && ptr == Null
    {
      p := ptr;
      ptr := Null;
    }

    /** `reset(p)`: holds `p` and deletes the former object. Resetting to the pointer the box
        already holds deletes that object and leaves the box dangling. */
    method Reset(h: Heap<V>, p: Ptr)
      requires h.Valid() && Valid(h)
      modifies this, h
      ensures h.Valid()
      ensures ptr == p
      ensures h.objects == old(h.objects) - AddrOf(old(ptr))
      ensures p == old(ptr) && p != Null ==> !h.Live(ptr)
    {
      var tmp := ptr;
      ptr := p;
      h.Delete(tmp);
    }

    /** `swap(v)`: exchanges the two boxes' pointers. */
    method Swap(v: ValuePtr<V>)
      modifies this, v
      ensures ptr == old(v.ptr) && v.ptr == old(ptr)
    {
      var tmp := ptr;
      ptr := v.ptr;
      v.ptr := tmp;
    }

    /** `operator->()`: the pointer held; ownership stays with the box. */
    method Arrow() returns (p: Ptr)
      ensures p == ptr
    {
      p := ptr;
    }
  }

  /** `makeValue<T>(args...)`: a box of static type `t` holding a fresh object
      `new T(args...)`, whose value is `value`. */
  method MakeValue<V>(t: TypeName, h: Heap<V>, value: V) returns (b: ValuePtr<V>)
    requires h.Valid()
    modifies h
    ensures fresh(b) && h.Valid()
    ensures b.declared == t && b.Owns(h)
    ensures b.ptr.addr !in old(h.objects)
    ensures h.objects == old(h.objects)[b.ptr.addr := Object(t, value)]
  {
    var p := h.New(t, value);
    b := new ValuePtr.Adopt(t, p);
  }

  /** A copy is independent: writing a new value into the copy's object leaves the
      original's object as it was. */
  method CopyIsIndependent<V>(h: Heap<V>, a: ValuePtr<V>, x: V) returns (b: ValuePtr<V>)
    requires h.Valid() && a.Owns(h)
    modifies h
    ensures fresh(b) && h.Valid() && a.Owns(h) && b.Owns(h)
    ensures b.ptr != a.ptr
    ensures h.objects[b.ptr.addr].value == x
    ensures h.objects[a.ptr.addr] == old(h.objects)[a.ptr.addr]
  {
    b := new ValuePtr.Copy(h, a);
    h.Assign(b.ptr, x);
  }

  /** Copying a `ValuePtr<Base>` that holds a `Derived` constructs a `Base`: the copy is made
      at the box's static type, so the copy's object has lost its dynamic type. */
  method CopyOfBaseBoxHoldingDerived<V>(x: V) returns (h: Heap<V>, a: ValuePtr<V>, b: ValuePtr<V>)
    ensures h.Valid() && a.Owns(h) && b.Owns(h)
    ensures a.declared == "Base" && b.declared == "Base"
    ensures h.objects[a.ptr.addr] == Object("Derived", x)
    ensures h.objects[b.ptr.addr] == Object("Base", x)
  {
    h := new Heap();
    var p := h.New("Derived", x);
    a := new ValuePtr.Adopt("Base", p);
    b := new ValuePtr.Copy(h, a);
  }

  /** Swapping twice restores both boxes. */
  method SwapTwiceRestores<V>(a: ValuePtr<V>, b: ValuePtr<V>)
    modifies a, b
    ensures a.ptr == old(a.ptr) && b.ptr == old(b.ptr)
  {
    a.Swap(b);
    a.Swap(b);
  }
}
