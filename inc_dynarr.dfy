/** The variant growable array of inc/dynarr.hpp. It differs from the one in
    src/ in its `reallocate`: a zero argument means "double", and only the
    first `arrSize` elements are copied (a bulk copy), so slots written by
    `set` at or beyond `arrSize` do not survive a growth. It has no `reserve`
    and no `clear`. */
module IncDynArr {
  import opened Common

  /** Capacity that `reallocate(newCap)` installs: `newCap`, or twice the
      current capacity when called with the default argument 0. */
  function ReallocTarget(capacity: nat, newCap: nat): (r: nat)
    ensures newCap != 0 ==> r == newCap
    ensures newCap == 0 && 0 < capacity ==> capacity < r
    ensures newCap == 0 ==> r == 2 * capacity
  {
    if newCap == 0 then capacity * 2 else newCap
  }

  class DynArr<T(0)> {
    var capacity: nat
    var arrSize: nat
    var arr: array<T>

    /** The representation invariant, as for the array of src/. */
    ghost predicate Valid()
      reads this
    {
      arr.Length == capacity && arrSize <= capacity <= UINT_MAX
    }

    /** The elements: the first `arrSize` slots of the buffer. */
    ghost function Elements(): seq<T>
      reads this, arr
      requires Valid()
    {
      arr[..arrSize]
    }

    /** `DynArr()`: an empty array with the default capacity of 16. */
    constructor ()
      ensures Valid() && fresh(arr)
      ensures capacity == 16 && Elements() == []
    {
      capacity := 16;
      arrSize := 0;
      arr := new T[16];
    }

    /** `DynArr(capacity)`: an empty array with the given capacity. */
    constructor WithCapacity(c: nat)
      requires c <= UINT_MAX
      ensures Valid() && fresh(arr)
      ensures capacity == c && Elements() == []
    {
      capacity := c;
      arrSize := 0;
      arr := new T[c];
    }

    /** `size()`: the number of elements. */
    function Size(): (r: nat)
      reads this, arr
      requires Valid()
      ensures r == |Elements()| && r <= capacity
    {
      arrSize
    }

    /** `reallocate(newCap = 0)`: a fresh buffer of `newCap` slots (twice the
        capacity for 0) into which only the `arrSize` elements are copied. */
    method Reallocate(newCap: nat := 0)
      requires Valid() && newCap <= UINT_MAX
      requires newCap == 0 ==> capacity * 2 <= UINT_MAX
      requires arrSize <= ReallocTarget(capacity, newCap)
      modifies this
      ensures Valid() && fresh(arr)
      ensures capacity == ReallocTarget(old(capacity), newCap)
      ensures arrSize == old(arrSize)
      ensures Elements() == old(Elements())
    {
      var target := newCap;
      if target == 0 {
        target := capacity * 2;
      }
      var newArr := new T[target];
      forall i | 0 <= i < arrSize {
        newArr[i] := arr[i];
      }
      arr := newArr;
      capacity := target;
    }

    /** `get(index)`: reads a slot, first growing to `index * 2` when
        `index > capacity`; `index == capacity` reads one past the buffer and
        is excluded. After a growth only the elements are still known. */
    method Get(index: nat) returns (v: T)
      requires Valid() && index != capacity
      requires index > capacity ==> index * 2 <= UINT_MAX
      modifies this
      ensures Valid() && arrSize == old(arrSize)
      ensures capacity == GrownCapacity(old(capacity), index)
      ensures Elements() == old(Elements())
      ensures index < old(capacity) ==> unchanged(this)
      ensures old(capacity) < index ==> fresh(arr)
      ensures v == arr[index]
      ensures index < old(capacity) ==> v == old(arr[index])
      ensures index < arrSize ==> v == Elements()[index]
    {
      if index > capacity {
        Reallocate(index * 2);
      }
      v := arr[index];
    }

    /** `set(index, val)`: writes a slot, with the same grow check as `get`;
        the number of elements never changes. A growth keeps the elements
        and drops every other slot written before. */
    method Set(index: nat, val: T)
      requires Valid() && index != capacity
      requires index > capacity ==> index * 2 <= UINT_MAX
      modifies this, arr
      ensures Valid() && arrSize == old(arrSize)
      ensures capacity == GrownCapacity(old(capacity), index)
      ensures arr[index] == val
      ensures index < old(capacity) ==> arr == old(arr)
      ensures index < old(capacity) ==>
        forall i | 0 <= i < capacity && i != index :: arr[i] == old(arr[i])
      ensures old(capacity) < index ==> fresh(arr) && arr[..arrSize] == old(arr[..arrSize])
      ensures index < arrSize ==> Elements() == old(Elements())[index := val]
      ensures arrSize <= index ==> Elements() == old(Elements())
    {
      if index > capacity {
        Reallocate(index * 2);
      }
      arr[index] := val;
    }

    /** `pushBack(val)`: appends, calling `reallocate()` with its default
        argument (doubling) when full. Zero capacity stays zero and the write
        misses the buffer, so callers must not push onto it. */
    method PushBack(val: T)
      requires Valid() && 0 < capacity
      requires arrSize == capacity ==> capacity * 2 <= UINT_MAX
      modifies this, arr
      ensures Valid()
      ensures Elements() == old(Elements()) + [val]
      ensures capacity == PushBackCapacity(old(capacity), old(arrSize))
      ensures arr == old(arr) || fresh(arr)
      ensures old(arrSize) < old(capacity) ==>
        arr == old(arr) && forall i | old(arrSize) < i < old(capacity) :: arr[i] == old(arr[i])
    {
      if arrSize == capacity {
        Reallocate();
      }
      arr[arrSize] := val;
      arrSize := arrSize + 1;
    }
  }

  /** The array part of src/main.cpp, for any `n`: push 0 .. n-1 onto a new
      array, then read indices 0 .. size()-1; the bound keeps the doubled
      capacity within 32 bits. */
  method PushThenReadBySize(n: nat) returns (read: seq<int>)
    requires n <= 0x8000_0000
    ensures read == seq(n, i => i)
  {
    var a := new DynArr<int>();
    var i := 0;
    while i < n
      invariant i <= n
      invariant fresh(a) && fresh(a.arr) && a.Valid() && 0 < a.capacity
      invariant a.Elements() == seq(i, j => j)
    {
      a.PushBack(i);
      i := i + 1;
    }
    read := [];
    var k := 0;
    while k < a.Size()
      invariant fresh(a) && fresh(a.arr) && a.Valid()
      invariant a.Elements() == seq(n, j => j) && k <= n
      invariant read == seq(k, j => j)
    {
      var v := a.Get(k);
      read := read + [v];
      k := k + 1;
    }
  }
}
