/** The growable array of src/dynarr.hpp: a heap buffer of `capacity` slots of
    which the first `arrSize` hold the elements. Every operation runs as one
    sequential step; the mutex is not modelled. */
module SrcDynArr {
  import opened Common

  class DynArr<T(0)> {
    var capacity: nat
    var arrSize: nat
    var arr: array<T>

    /** The representation invariant: the buffer has exactly `capacity`
        slots, the elements fit in it, and both counts are 32-bit unsigned. */
    ghost predicate Valid()
      reads this
    {
      arr.Length == capacity && arrSize <= capacity <= UINT_MAX
    }

    /** The elements: the first `arrSize` slots of the buffer. */
    ghost function Elements(): seq<T>
      reads this, arr
      requires Valid()
    {
      arr[..arrSize]
    }

    /** `DynArr()`: an empty array with the default capacity of 16. */
    constructor ()
      ensures Valid() && fresh(arr)
      ensures capacity == 16 && Elements() == []
    {
      capacity := 16;
      arrSize := 0;
      arr := new T[16];
    }

    /** `DynArr(capacity)`: an empty array with the given capacity. */
    constructor WithCapacity(c: nat)
      requires c <= UINT_MAX
      ensures Valid() && fresh(arr)
      ensures capacity == c && Elements() == []
    {
      capacity := c;
      arrSize := 0;
      arr := new T[c];
    }

    /** `size()`: the number of elements. */
    function Size(): (r: nat)
      reads this, arr
      requires Valid()
      ensures r == |Elements()| && r <= capacity
    {
      arrSize
    }

    /** `reallocate(newCap)`: a fresh buffer of `newCap` slots into which all
        `capacity` old slots are copied one by one. */
    method Reallocate(newCap: nat)
      requires Valid() && capacity <= newCap <= UINT_MAX
      modifies this
      ensures Valid() && fresh(arr)
      ensures capacity == newCap && arrSize == old(arrSize)
      ensures arr[..old(capacity)] == old(arr[..])
      ensures Elements() == old(Elements())
    {
      var newArr := new T[newCap];
      for i := 0 to capacity
        modifies newArr
        invariant newArr[..i] == arr[..i]
      {
        newArr[i] := arr[i];
      }
      capacity := newCap;
      arr := newArr;
    }

    /** `get(index)`: reads a slot, first growing the buffer to `index * 2`
        when `index > capacity`. `index == capacity` passes the check and
        reads one past the buffer, so callers must not ask for it. */
    method Get(index: nat) returns (v: T)
      requires Valid() && index != capacity
      requires index > capacity ==> index * 2 <= UINT_MAX
      modifies this
      ensures Valid() && arrSize == old(arrSize)
      ensures capacity == GrownCapacity(old(capacity), index)
      ensures arr[..old(capacity)] == old(arr[..])
      ensures Elements() == old(Elements())
      ensures index < old(capacity) ==> unchanged(this)
      ensures old(capacity) < index ==> fresh(arr)
      ensures v == arr[index]
      ensures index < old(capacity) ==> v == old(arr[index])
      ensures index < arrSize ==> v == Elements()[index]
    {
      if index > capacity {
        Reallocate(index * 2);
      }
      v := arr[index];
    }

    /** `get(index)` with the intended grow check `index >= capacity`: no
        index is excluded except 0 on a zero-capacity array. */
    method GetChecked(index: nat) returns (v: T)
      requires Valid() && (0 < capacity || 0 < index)
      requires index >= capacity ==> index * 2 <= UINT_MAX
      modifies this
      ensures Valid() && arrSize == old(arrSize)
      ensures capacity == GrownCapacityChecked(old(capacity), index) && index < capacity
      ensures Elements() == old(Elements())
      ensures index < old(capacity) ==> unchanged(this)
      ensures v == arr[index]
      ensures index < arrSize ==> v == Elements()[index]
    {
      if index >= capacity {
        Reallocate(index * 2);
      }
      v := arr[index];
    }

    /** `set(index, val)`: writes a slot, with the same grow check as `get`.
        The number of elements never changes. */
    method Set(index: nat, val: T)
      requires Valid() && index != capacity
      requires index > capacity ==> index * 2 <= UINT_MAX
      modifies this, arr
      ensures Valid() && arrSize == old(arrSize)
      ensures capacity == GrownCapacity(old(capacity), index)
      ensures index < old(capacity) ==> arr == old(arr)
      ensures old(capacity) < index ==> fresh(arr)
      ensures arr[index] == val
      ensures forall i | 0 <= i < old(capacity) && i != index :: arr[i] == old(arr[i])
      ensures index < arrSize ==> Elements() == old(Elements())[index := val]
      ensures arrSize <= index ==> Elements() == old(Elements())
    {
      if index > capacity {
        Reallocate(index * 2);
      }
      arr[index] := val;
    }

    /** `pushBack(val)`: appends, doubling the capacity first when full. With
        capacity 0 the doubling gives 0 and the write misses the buffer, so
        callers must not push onto a zero-capacity array. */
    method PushBack(val: T)
      requires Valid() && 0 < capacity
      requires arrSize == capacity ==> capacity * 2 <= UINT_MAX
      modifies this, arr
      ensures Valid()
      ensures Elements() == old(Elements()) + [val]
      ensures capacity == PushBackCapacity(old(capacity), old(arrSize))
      ensures arr == old(arr) || fresh(arr)
      ensures old(arrSize) < old(capacity) ==> arr == old(arr)
      ensures forall i | old(arrSize) < i < old(capacity) :: arr[i] == old(arr[i])
    {
      if arrSize == capacity {
        Reallocate(capacity * 2);
      }
      arr[arrSize] := val;
      arrSize := arrSize + 1;
    }

    /** `reserve(newCap)`: grows the buffer to `newCap` when it is smaller,
        never shrinks it, and keeps every slot. */
    method Reserve(newCap: nat)
      requires Valid() && newCap <= UINT_MAX
      modifies this
      ensures Valid() && arrSize == old(arrSize)
      ensures capacity == if old(capacity) < newCap then newCap else old(capacity)
      ensures newCap <= capacity && old(capacity) <= capacity
      ensures arr[..old(capacity)] == old(arr[..])
      ensures Elements() == old(Elements())
      ensures newCap <= old(capacity) ==> unchanged(this)
    {
      if capacity < newCap {
        Reallocate(newCap);
      }
    }

    /** `clear()`: replaces the buffer by a fresh one of the same capacity.
        As written it does not reset `arrSize`, so the size is unchanged and
        the elements are now the indeterminate contents of fresh slots. */
    method Clear()
      requires Valid()
      modifies this
      ensures Valid() && fresh(arr)
      ensures capacity == old(capacity)
      ensures arrSize == old(arrSize)
    {
      arr := new T[capacity];
    }

    /** `clear()` as its comment and the rest of the library intend it: a
        fresh buffer of the same capacity and no elements. */
    method ClearReset()
      requires Valid()
      modifies this
      ensures Valid() && fresh(arr)
      ensures capacity == old(capacity)
      ensures Elements() == []
    {
      arr := new T[capacity];
      arrSize := 0;
    }
  }

  /** The scenario of the library's basic array test: push 0 .. n-1 onto a
      fresh array, then read every index back. The bound on `n` keeps the
      doubled capacity within 32 bits. */
  method PushBackReadBack(n: nat) returns (read: seq<int>)
    requires n <= 0x8000_0000
    ensures read == seq(n, i => i)
  {
    var a := new DynArr<int>();
    var i := 0;
    while i < n
      invariant i <= n
      invariant fresh(a) && fresh(a.arr) && a.Valid() && 0 < a.capacity
      invariant a.Elements() == seq(i, j => j)
    {
      a.PushBack(i);
      i := i + 1;
    }
    read := [];
    i := 0;
    while i < n
      invariant i <= n
      invariant fresh(a) && fresh(a.arr) && a.Valid()
      invariant a.Elements() == seq(n, j => j)
      invariant read == seq(i, j => j)
    {
      var v := a.Get(i);
      read := read + [v];
      i := i + 1;
    }
  }

  /** `clear()` as written: after pushing one value and clearing, `size()`
      still reports one element. */
  method ClearKeepsSize() returns (size: nat)
    ensures size == 1
  {
    var a := new DynArr<int>();
    a.PushBack(7);
    a.Clear();
    size := a.Size();
  }

  /** The intended `clear()`: the same scenario reports no elements. */
  method ClearResetEmpties() returns (size: nat)
    ensures size == 0
  {
    var a := new DynArr<int>();
    a.PushBack(7);
    a.ClearReset();
    size := a.Size();
  }

  /** `get(16)` on a new 16-slot array with the intended grow check: the
      buffer grows to 32 slots, so the read stays inside it. As written the
      check lets index 16 through and reads one past the buffer. */
  method GetCheckedAtCapacity() returns (cap: nat)
    ensures cap == 32
  {
    var a := new DynArr<int>();
    var _ := a.GetChecked(16);
    cap := a.capacity;
  }
}
