/** The free store that `new` and `delete` act on, and the part of `std::unique_ptr`
    that the owning containers use. Objects are values in a map from addresses; a
    pointer is an address or null. */
module Memory {

  /** A raw pointer `T*`: null, or the address of an object in the free store. */
  datatype Ptr = Null | Addr(addr: nat)

  /** The name of a C++ class type; an object records the type it was constructed as. */
  type TypeName = string

  /** A heap object: its dynamic type (the type named in the `new` that made it) and its value. */
  datatype Object<V> = Object(tag: TypeName, value: V)

  /** The addresses a pointer refers to: none for null, one otherwise. */
  function AddrOf(p: Ptr): (r: set<nat>)
  {
    if p.Null? then {} else {p.addr}
  }

  /** The addresses held by the non-null pointers of `s`. */
  function AddrsIn(s: seq<Ptr>): (r: set<nat>)
  {
    if s == [] then {} else AddrsIn(s[..|s| - 1]) + AddrOf(s[|s| - 1])
  }

  /** The number of non-null pointers in `s`. */
  function CountNonNull(s: seq<Ptr>): (n: nat)
  {
    if s == [] then 0 else CountNonNull(s[..|s| - 1]) + (if s[|s| - 1].Addr? then 1 else 0)
  }

  /** No non-null pointer occurs twice in `s`, so deleting every slot frees each object once. */
  predicate NoDuplicates(s: seq<Ptr>)
  {
    forall i, j :: 0 <= i < j < |s| && s[i].Addr? ==> s[i] != s[j]
  }

  /** Every slot of `s` is null or points to an object in `m`. */
  ghost predicate NullOrIn<V>(s: seq<Ptr>, m: map<nat, Object<V>>)
  {
    forall p :: p in s ==> p == Null || (p.Addr? && p.addr in m)
  }

  /** An address is held by a sequence of pointers exactly when some slot points to it. */
  lemma {:induction false} AddrsInMembership(s: seq<Ptr>, a: nat)
    ensures a in AddrsIn(s) <==> Addr(a) in s
  {
    if s != [] {
      var t := s[..|s| - 1];
      AddrsInMembership(t, a);
      assert s == t + [s[|s| - 1]];
    }
  }

  /** Without duplicates, the non-null slots own exactly as many distinct objects as there are such slots. */
  lemma {:induction false} DistinctAddrsCount(s: seq<Ptr>)
    requires NoDuplicates(s)
    ensures |AddrsIn(s)| == CountNonNull(s)
  {
    if s != [] {
      var t := s[..|s| - 1];
      var last := s[|s| - 1];
      assert NoDuplicates(t) by {
        forall i, j | 0 <= i < j < |t| && t[i].Addr?
          ensures t[i] != t[j]
        {
          assert t[i] == s[i] && t[j] == s[j];
        }
      }
      DistinctAddrsCount(t);
      if last.Addr? {
        AddrsInMembership(t, last.addr);
      }
    }
  }

  /** If every non-null pointer of `s` has an object in `m`, so does every address `s` holds. */
  lemma AddrsInLive<V>(s: seq<Ptr>, m: map<nat, Object<V>>)
    requires NullOrIn(s, m)
    ensures AddrsIn(s) <= m.Keys
  {
  }

  /** Extending a prefix of `s` by one slot adds that slot's address. */
  lemma AddrsInStep(s: seq<Ptr>, i: nat)
    requires i < |s|
    ensures AddrsIn(s[..i + 1]) == AddrsIn(s[..i]) + AddrOf(s[i])
  {
    assert s[..i + 1][..i] == s[..i];
  }

  /** Deleting the slots of `s` in order: the next non-null slot is still live, because
      no earlier slot held its address. */
  lemma NextSlotDeletable<V>(s: seq<Ptr>, i: nat, m: map<nat, Object<V>>)
    requires i < |s| && NoDuplicates(s)
    requires NullOrIn(s, m)
    ensures s[i] == Null || s[i].addr in m - AddrsIn(s[..i])
  {
    if s[i].Addr? {
      AddrsInMembership(s[..i], s[i].addr);
      assert s[i] !in s[..i] by {
        forall k | 0 <= k < i
          ensures s[..i][k] != s[i]
        {
          assert s[..i][k] == s[k];
        }
      }
    }
  }

  /** One step of deleting the slots of `s` in order: after the first `i` slots are deleted
      from `m`, the next slot is null or live, and deleting it leaves the first `i + 1`
      slots deleted. */
  lemma DeleteNextSlot<V>(s: seq<Ptr>, i: nat, m: map<nat, Object<V>>, cur: map<nat, Object<V>>)
    requires i < |s| && NoDuplicates(s)
    requires NullOrIn(s, m)
    requires cur == m - AddrsIn(s[..i])
    ensures s[i] == Null || s[i].addr in cur
    ensures cur - AddrOf(s[i]) == m - AddrsIn(s[..i + 1])
  {
    NextSlotDeletable(s, i, m);
    AddrsInStep(s, i);
  }

  /** Deleting every slot of a duplicate-free `s` whose slots are null or live frees
      exactly as many objects as `s` has non-null slots. */
  lemma Teardown<V>(s: seq<Ptr>, m: map<nat, Object<V>>)
    requires NoDuplicates(s)
    requires NullOrIn(s, m)
    ensures |m - AddrsIn(s)| == |m| - CountNonNull(s)
  {
    AddrsInLive(s, m);
    DistinctAddrsCount(s);
    MapRemoveCardinality(m, AddrsIn(s));
  }

  /** Removing a set of live addresses from the heap map removes exactly that many objects. */
  lemma MapRemoveCardinality<V>(m: map<nat, Object<V>>, s: set<nat>)
    requires s <= m.Keys
    ensures |m - s| == |m| - |s|
  {
  }

  /** The free store. */
  class Heap<V> {
    /** The live objects, by address. */
    var objects: map<nat, Object<V>>
    /** The next address `new` hands out. */
    var next: nat

    /** No live object sits at or above `next`, so `New` never reuses a live address. */
    ghost predicate Valid()
      reads this
    {
      forall a :: a in objects ==> a < next
    }

    /** `p` points to a live object: dereferencing or deleting it is defined. */
    predicate Live(p: Ptr)
      reads this
    {
      p.Addr? && p.addr in objects
    }

    constructor ()
      ensures Valid() && objects == map[]
    {
      objects := map[];
      next := 0;
    }

    /** `new T(args...)`: a fresh object of dynamic type `tag` holding `value`. */
    method New(tag: TypeName, value: V) returns (p: Ptr)
      requires Valid()
      modifies this
      ensures Valid()
      ensures p.Addr? && p.addr !in old(objects)
      ensures objects == old(objects)[p.addr := Object(tag, value)]
    {
      p := Addr(next);
      objects := objects[next := Object(tag, value)];
      next := next + 1;
    }

    /** `delete p`: destroys the object `p` points to; deleting null does nothing. */
    method Delete(p: Ptr)
      requires Valid()
      requires p == Null || Live(p)
      modifies this
      ensures Valid()
      ensures objects == old(objects) - AddrOf(p)
    {
      objects := objects - AddrOf(p);
    }

    /** `*p = value` through the object's own copy assignment: the value changes,
        the object and its dynamic type stay. */
    method Assign(p: Ptr, value: V)
      requires Valid() && Live(p)
      modifies this
      ensures Valid()
      ensures objects == old(objects)[p.addr := Object(old(objects)[p.addr].tag, value)]
    {
      objects := objects[p.addr := Object(objects[p.addr].tag, value)];
    }
  }

  /** `std::unique_ptr<T>`: one owning pointer. */
  class UniquePtr {
    var ptr: Ptr

    constructor (p: Ptr)
      ensures ptr == p
    {
      ptr := p;
    }

    /** `release()`: gives up ownership without deleting and returns the pointer. */
    method Release() returns (p: Ptr)
      modifies this
      ensures p == old(ptr) && ptr == Null
    {
      p := ptr;
      ptr := Null;
    }
  }
}
