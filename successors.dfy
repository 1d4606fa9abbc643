/**
 * The successor buffer: a growable array of state handles that the
 * successors-of callback fills and the search drivers read back.
 * The buffer owns its backing array, never the states it holds.
 */
module Successors {

  /** The capacity after one growth step: `1.5 * capacity + 1`, computed in
      floating point and truncated back to an unsigned size. */
  function GrownCapacity(capacity: nat): (r: nat)
    ensures 2 * r == 3 * capacity + 2 || 2 * r == 3 * capacity + 1
    ensures capacity < r
  {
    capacity + capacity / 2 + 1
  }

  class Buffer<S(0)> {
    /** `data`: the backing storage, whose length is `array_size` */
    var data: array<S>
    /** `size`: the logical number of handles */
    var size: nat

    ghost predicate Valid()
      reads this
    {
      size <= data.Length
    }

    /** The handles pushed since the last clear, oldest first. */
    ghost function Contents(): seq<S>
      reads this, data
      requires Valid()
    {
      data[..size]
    }

    /** `successors_create`: capacity `capacity`, logical size 0. */
    constructor Create(capacity: nat)
      ensures Valid() && fresh(data)
      ensures data.Length == capacity && size == 0 && Contents() == []
    {
      data := new S[capacity];
      size := 0;
    }

    /** `successors_is_empty`: `size <= 0`. */
    function IsEmpty(): (r: bool)
      reads this, data
      requires Valid()
      ensures r <==> Contents() == []
    {
      size <= 0
    }

    /** `successors_get`: the raw slot `index` of the backing array. */
    function Get(index: nat): (s: S)
      reads this, data
      requires Valid() && index < data.Length
      ensures index < size ==> s == Contents()[index]
    {
      data[index]
    }

    /** `successors_peek`: the most recently pushed handle. */
    function Peek(): (s: S)
      reads this, data
      requires Valid() && 0 < size
      ensures s == Contents()[|Contents()| - 1]
    {
      Get(size - 1)
    }

    /** `successors_set`: overwrites slot `index` and nothing else. */
    method Set(index: nat, s: S)
      requires Valid() && index < data.Length
      modifies data
      ensures Valid()
      ensures data[..] == old(data[..])[index := s]
      ensures index < size ==> Contents() == old(Contents())[index := s]
      ensures index >= size ==> Contents() == old(Contents())
    {
      data[index] := s;
    }

    /** `successors_clear`: the logical size drops to 0; the backing array and
        its capacity are kept for reuse. */
    method Clear()
      requires Valid()
      modifies this`size
      ensures Valid() && Contents() == []
      ensures size == 0 && data == old(data) && data[..] == old(data[..])
    {
      size := 0;
    }

    /** `successors_push`: grows to `GrownCapacity` when full, then stores the
        handle at index `size`. The reallocation is assumed to succeed. */
    method Push(s: S) returns (ok: bool)
      requires Valid()
      modifies this, data
      ensures Valid() && ok
      ensures Contents() == old(Contents()) + [s]
      ensures old(size) < old(data.Length) ==> data == old(data)
      ensures old(size) >= old(data.Length) ==>
                fresh(data) && data.Length == GrownCapacity(old(data.Length))
      ensures old(size) >= old(data.Length) ==> old(data[..]) <= data[..]
    {
      if size >= data.Length {
        var grown := new S[GrownCapacity(data.Length)];
        forall i | 0 <= i < data.Length {
          grown[i] := data[i];
        }
        data := grown;
      }
      data[size] := s;
      size := size + 1;
      ok := true;
    }

    /** `successors_pop`: drops the last handle; an empty buffer is left as it
        is and reported with `false`. */
    method Pop() returns (ok: bool)
      requires Valid()
      modifies this`size
      ensures Valid() && data == old(data)
      ensures ok <==> old(size) > 0
      ensures ok ==> Contents() == old(Contents())[..old(size) - 1]
      ensures !ok ==> Contents() == old(Contents())
    {
      ok := false;
      if size > 0 {
        size := size - 1;
        ok := true;
      }
    }

    /** `successors_resize`: only shrinks. When more than `newSize` handles are
        held it pops down to `newSize` and cuts the capacity to `newSize`. */
    method Resize(newSize: nat) returns (ok: bool)
      requires Valid()
      modifies this
      ensures Valid() && ok
      ensures old(size) > newSize ==>
                size == newSize && data.Length == newSize && Contents() == old(Contents())[..newSize]
      ensures old(size) <= newSize ==>
                size == old(size) && data == old(data) && Contents() == old(Contents())
    {
      ok := true;
      if size > newSize {
        ghost var before := Contents();
        while size > newSize
          invariant Valid() && newSize <= size && data == old(data)
          invariant Contents() == before[..size]
          decreases size
        {
          var _ := Pop();
        }
        var shrunk := new S[newSize];
        forall i | 0 <= i < newSize {
          shrunk[i] := data[i];
        }
        data := shrunk;
      }
    }

    /** `successors_destroy`: pops until empty. The stored handles are not
        released, because the buffer does not own them. */
    method Destroy()
      requires Valid()
      modifies this`size
      ensures Valid() && size == 0 && Contents() == []
      ensures data == old(data) && data[..] == old(data[..])
    {
      while !IsEmpty()
        invariant Valid() && data == old(data)
        decreases size
      {
        var _ := Pop();
      }
    }

    /** What a successors-of callback does with the buffer it is handed:
        push every successor it enumerates, in order. */
    method PushAll(states: seq<S>)
      requires Valid()
      modifies this, data
      ensures Valid()
      ensures Contents() == old(Contents()) + states
      ensures data == old(data) || fresh(data)
    {
      var i := 0;
      while i < |states|
        invariant 0 <= i <= |states|
        invariant Valid()
        invariant Contents() == old(Contents()) + states[..i]
        invariant data == old(data) || fresh(data)
      {
        var _ := Push(states[i]);
        i := i + 1;
      }
    }
  }
}
