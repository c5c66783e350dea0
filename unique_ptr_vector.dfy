/** `UniquePtrVector<T>`: a growable array of owning `T*` slots, kept in a buffer
    `data` of `cap` slots of which the first `size` are in use. The element type
    plays no part in the vector's logic, so slots hold `Memory.Ptr` values. */
module UniquePtrVectors {
  import opened Memory
  import opened Growth

  /** `std::range_error`. */
  datatype RangeError = RangeError(message: string)

  /** What `throwIfOutOfRange` does: return, or throw. */
  datatype Outcome = Pass | Fail(error: RangeError)

  /** A value, or the `range_error` thrown instead of returning it. */
  datatype Result<T> = Ok(value: T) | Err(error: RangeError)

  const OutOfRangeMessage: string := "index is greater than the size of the container"

  class UniquePtrVector {
    /** `m_data`, `m_size`, `m_cap`. */
    var data: array<Ptr>
    var size: nat
    var cap: nat

    /** The buffer has `cap` slots and at most `cap` are in use. */
    ghost predicate Valid()
      reads this
    {
      data.Length == cap && size <= cap
    }

    /** The slots in use, in order. */
    ghost function Contents(): (s: seq<Ptr>)
      reads this, data
      requires Valid()
    {
      data[..size]
    }

    /** The objects the vector owns: those the slots in use point to. */
    ghost function Owned(): (r: set<nat>)
      reads this, data
      requires Valid()
    {
      AddrsIn(Contents())
    }

    /** The private constructor the factories finish with: adopts a buffer as it is. */
    constructor Wrap(d: array<Ptr>, sz: nat, c: nat)
      ensures data == d && size == sz && cap == c
    {
      data := d;
      size := sz;
      cap := c;
    }

    /** `UniquePtrVector()`: one null slot, none in use. */
    constructor ()
      ensures Valid() && fresh(data)
      ensures size == 0 && cap == 1 && data[0] == Null
    {
      data := new Ptr[1];
      size := 0;
      cap := 1;
      new;
      data[0] := Null;
    }

    /** `UniquePtrVector(sz)`: `n` null slots, none in use. */
    constructor WithCapacity(n: nat)
      ensures Valid() && fresh(data)
      ensures size == 0 && cap == n
      ensures forall i :: 0 <= i < n ==> data[i] == Null
    {
      data := new Ptr[n](_ => Null);
      size := 0;
      cap := n;
    }

    /** `maybeExpand(sz)`: if `sz` more slots do not fit, doubles the capacity once and moves
        the slots in use, bit for bit and in order, to a new buffer; the objects they point
        to are not touched. The rest of the new buffer is not initialised, so nothing is
        promised about it. */
    method MaybeExpand(sz: nat) returns (grew: bool)
      requires Valid()
      modifies this
      ensures Valid() && size == old(size)
      ensures grew <==> old(size) + sz > old(cap)
      ensures cap == GrownCapacity(old(size), old(cap), sz)
      ensures grew ==> fresh(data)
      ensures !grew ==> data == old(data)
      ensures Contents() == old(Contents())
    {
      if size + sz <= cap {
        return false;
      }
      cap := ExpandFactor(cap);
      var tmp := new Ptr[cap];
      var i := 0;
      while i < size
        invariant 0 <= i <= size <= tmp.Length
        invariant forall k :: 0 <= k < i ==> tmp[k] == data[k]
        modifies tmp
      {
        tmp[i] := data[i];
        i := i + 1;
      }
      data := tmp;
      return true;
    }

    /** `throwIfOutOfRange(index)`: throws exactly when `index` is not a slot in use.
        Its second test, `index < 0`, can never hold for the unsigned `size_type`. */
    function ThrowIfOutOfRange(index: nat): (o: Outcome)
      reads this
      ensures o.Fail? <==> index >= size
      ensures o.Fail? ==> o.error.message == OutOfRangeMessage
    {
      if index >= size then Fail(RangeError(OutOfRangeMessage)) else Pass
    }

    /** `pushBack(T*)`: appends `p`, growing first if the vector is full. A vector of
        capacity 0 cannot take an element: `expandFactor(0) == 0`, so the write would land
        past the end of the buffer (see `Growth.ZeroCapacityNeverGrows`). */
    method PushBack(p: Ptr)
      requires Valid()
      requires 0 < cap
      modifies this, data
      ensures Valid()
      ensures data == old(data) || fresh(data)
      ensures old(size) < old(cap) ==> data == old(data) && data[size..] == old(data[size + 1..])
      ensures Contents() == old(Contents()) + [p]
      ensures cap == GrownCapacity(old(size), old(cap), 1)
    {
      var _ := MaybeExpand(1);
      data[size] := p;
      size := size + 1;
    }

    /** `pushBack(std::unique_ptr<T>&&)`: appends the pointer `u` owned and leaves `u` empty. */
    method PushBackUnique(u: UniquePtr)
      requires Valid()
      requires 0 < cap
      modifies this, data, u
      ensures Valid()
      ensures data == old(data) || fresh(data)
      ensures old(size) < old(cap) ==> data == old(data) && data[size..] == old(data[size + 1..])
      ensures Contents() == old(Contents()) + [old(u.ptr)]
      ensures u.ptr == Null
      ensures cap == GrownCapacity(old(size), old(cap), 1)
    {
      var _ := MaybeExpand(1);
      var p := u.Release();
      data[size] := p;
      size := size + 1;
    }

    /** `operator[](index)`: the slot, unchecked; any slot of the buffer can be read, and
        for a slot in use it is that element. */
    method Index(index: nat) returns (p: Ptr)
      requires Valid()
      requires index < cap
      ensures p == data[index]
      ensures index < size ==> p == Contents()[index]
    {
      p := data[index];
    }

    /** `at(index)`: the element at `index`, or `range_error` when `index >= size`. */
    method At(index: nat) returns (r: Result<Ptr>)
      requires Valid()
      ensures r.Err? <==> index >= size
      ensures r.Ok? ==> r.value == Contents()[index]
      ensures r.Err? ==> r.error == RangeError(OutOfRangeMessage)
    {
      var check := ThrowIfOutOfRange(index);
      if check.Fail? {
        return Err(check.error);
      }
      return Ok(data[index]);
    }

    /** `front()`: the first element; unchecked, so the vector must not be empty. */
    method Front() returns (p: Ptr)
      requires Valid()
      requires 0 < size
      ensures p == Contents()[0]
    {
      p := data[0];
    }

    /** `back()`: the last element; unchecked, so the vector must not be empty. */
    method Back() returns (p: Ptr)
      requires Valid()
      requires 0 < size
      ensures p == Contents()[|Contents()| - 1]
    {
      p := data[size - 1];
    }

    /** `~UniquePtrVector()`: deletes the object of every slot in use, each once, and no
        other object. Slots must be null or live, and no object may be owned twice. */
    method Destroy<V>(h: Heap<V>)
      requires Valid() && h.Valid()
      requires forall p :: p in Contents() ==> p == Null || h.Live(p)
      requires NoDuplicates(Contents())
      modifies h
      ensures h.Valid()
      ensures h.objects == old(h.objects) - Owned()
      ensures |h.objects| == |old(h.objects)| - CountNonNull(Contents())
    {
      ghost var before := h.objects;
      ghost var c := Contents();
      assert NullOrIn(c, before);
      var i := 0;
      while i < size
        invariant 0 <= i <= size
        invariant h.Valid()
        invariant h.objects == before - AddrsIn(c[..i])
      {
        assert data[i] == c[i];
        DeleteNextSlot(c, i, before, h.objects);
        h.Delete(data[i]);
        i := i + 1;
      }
      assert c[..size] == c;
      Teardown(c, before);
    }

    /** `fromPtr(T*...)`: a vector whose slots are exactly the arguments, in order, and full. */
    static method FromPtr(args: seq<Ptr>) returns (v: UniquePtrVector)
      ensures fresh(v) && fresh(v.data)
      ensures v.Valid() && v.size == |args| && v.cap == |args|
      ensures v.Contents() == args
    {
      var d := new Ptr[|args|];
      var i := 0;
      while i < |args|
        invariant 0 <= i <= |args|
        invariant d[..i] == args[..i]
      {
        d[i] := args[i];
        i := i + 1;
      }
      v := new UniquePtrVector.Wrap(d, |args|, |args|);
    }

    /** `fromPtr(std::unique_ptr<T>&&...)`: takes each argument's pointer, in order, and leaves
        every argument empty. An argument passed twice has been emptied by its first
        occurrence, so its later slots are null. */
    static method FromUniquePtrs(args: seq<UniquePtr>) returns (v: UniquePtrVector)
      modifies set u | u in args
      ensures fresh(v) && fresh(v.data)
      ensures v.Valid() && v.size == |args| && v.cap == |args|
      ensures forall i :: 0 <= i < |args| ==>
        v.Contents()[i] == if args[i] in args[..i] then Null else old(args[i].ptr)
      ensures forall u :: u in args ==> u.ptr == Null
    {
      var d := new Ptr[|args|];
      var i := 0;
      while i < |args|
        invariant 0 <= i <= |args|
        invariant forall k :: 0 <= k < i ==>
          d[k] == if args[k] in args[..k] then Null else old(args[k].ptr)
        invariant forall k :: 0 <= k < i ==> args[k].ptr == Null
        invariant forall k :: i <= k < |args| ==>
          args[k].ptr == if args[k] in args[..i] then Null else old(args[k].ptr)
      {
        assert args[..i + 1] == args[..i] + [args[i]];
        d[i] := args[i].Release();
        i := i + 1;
      }
      v := new UniquePtrVector.Wrap(d, |args|, |args|);
      assert v.Contents() == d[..];
    }
  }

  /** Two appends onto a default vector: the contents are the two pointers in order, and
      the capacity follows the run of growth steps that `Growth.CapacityAfter` describes. */
  method TwoPushesFromDefault(p: Ptr, q: Ptr) returns (v: UniquePtrVector)
    ensures fresh(v) && v.Valid()
    ensures v.Contents() == [p, q]
    ensures v.cap == CapacityAfter(0, 1, 2) == 2
  {
    v := new UniquePtrVector();
    v.PushBack(p);
    v.PushBack(q);
  }

  /** Appending `ps` one `pushBack` at a time onto any vector of positive capacity: the
      contents are the old contents followed by `ps`, and the capacity is the one the growth
      run `Growth.CapacityAfter` gives, so the lemmas about that run hold of the vector. */
  method PushAll(v: UniquePtrVector, ps: seq<Ptr>)
    requires v.Valid() && 0 < v.cap
    modifies v, v.data
    ensures v.Valid()
    ensures v.Contents() == old(v.Contents()) + ps
    ensures v.cap == CapacityAfter(old(v.size), old(v.cap), |ps|)
  {
    ghost var start := v.Contents();
    var k := 0;
    while k < |ps|
      invariant 0 <= k <= |ps|
      invariant v.Valid() && 0 < v.cap
      invariant v.data == old(v.data) || fresh(v.data)
      invariant v.Contents() == start + ps[..k]
      invariant v.cap == CapacityAfter(old(v.size), old(v.cap), k)
    {
      v.PushBack(ps[k]);
      assert ps[..k + 1] == ps[..k] + [ps[k]];
      k := k + 1;
    }
    assert ps[..|ps|] == ps;
  }
}
