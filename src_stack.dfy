/** The stack of src/stack.hpp: a `DynArr` holding the pushed values and a
    signed `topIndex`, -1 when empty. `push` bumps `topIndex` and appends;
    `pop` lowers `topIndex` and reads the slot above it, but never shrinks
    the array, so `topIndex` and the array's size agree only until the first
    pop. Both are modelled as written; the intended pair follows them. */
module SrcStack {
  import opened Common
  import SrcDynArr

  class Stack<T(0)> {
    const arr: SrcDynArr.DynArr<T>
    var topIndex: int

    /** The invariant every operation keeps: the array is valid and
        `topIndex` never points past its last element. */
    ghost predicate Valid()
      reads this, arr
    {
      arr.Valid() && topIndex < arr.arrSize
    }

    /** `topIndex` names the array's last element, as a stack built by
        pushes alone has it. */
    ghost predicate Synced()
      reads this, arr
    {
      topIndex + 1 == arr.arrSize
    }

    /** The stack's values, bottom first: the array slots up to `topIndex`. */
    ghost function Items(): seq<T>
      reads this, arr, arr.arr
      requires Valid() && -1 <= topIndex
    {
      arr.Elements()[..topIndex + 1]
    }

    /** `Stack()`: empty, over an array of the default capacity 16. */
    constructor ()
      ensures Valid() && Synced() && fresh(arr) && fresh(arr.arr)
      ensures topIndex == -1 && Items() == [] && arr.capacity == 16
    {
      arr := new SrcDynArr.DynArr();
      topIndex := -1;
    }

    /** `Stack(init_capacity)`: empty, over an array of that capacity. */
    constructor WithCapacity(c: nat)
      requires c <= UINT_MAX
      ensures Valid() && Synced() && fresh(arr) && fresh(arr.arr)
      ensures topIndex == -1 && Items() == [] && arr.capacity == c
    {
      arr := new SrcDynArr.DynArr.WithCapacity(c);
      topIndex := -1;
    }

    /** `size()`: `topIndex + 1` converted to `unsigned`. It counts the items
        while `topIndex >= -1`, and wraps to UINT_MAX after a pop on an empty
        stack has left `topIndex` at -2. */
    function Size(): (r: nat)
      reads this, arr, arr.arr
      requires Valid()
      ensures r <= UINT_MAX
      ensures -1 <= topIndex ==> r == |Items()|
      ensures topIndex == -2 ==> r == UINT_MAX
    {
      ToUnsigned(topIndex + 1)
    }

    /** `top()`: throws on an empty stack, otherwise returns the value at
        `topIndex` and changes nothing. A `topIndex` below -1 would become a
        huge unsigned index, so callers must not ask then. */
    method Top() returns (r: Result<T>)
      requires Valid() && -1 <= topIndex
      modifies arr
      ensures unchanged(arr) && Valid()
      ensures topIndex == -1 ==> r == Err(RuntimeError)
      ensures 0 <= topIndex ==> r == Ok(Items()[|Items()| - 1])
    {
      if topIndex == -1 {
        return Err(RuntimeError);
      }
      var v := arr.Get(topIndex);
      r := Ok(v);
    }

    /** `push(val)`: increments `topIndex` and appends to the array. On a
        synced stack the value becomes the top; after a pop the array is
        longer than the stack, and the new top is the stale slot above the
        old top while `val` lands past it. */
    method Push(val: T)
      requires Valid() && topIndex < INT_MAX
      requires 0 < arr.capacity && (arr.arrSize == arr.capacity ==> arr.capacity * 2 <= UINT_MAX)
      modifies this, arr, arr.arr
      ensures Valid() && topIndex == old(topIndex) + 1
      ensures arr.Elements() == old(arr.Elements()) + [val]
      ensures arr.capacity == PushBackCapacity(old(arr.capacity), old(arr.arrSize))
      ensures arr.arr == old(arr.arr) || fresh(arr.arr)
      ensures Synced() == old(Synced())
      ensures old(Synced()) && -1 <= old(topIndex) ==> Items() == old(Items()) + [val]
      ensures !old(Synced()) && -1 <= old(topIndex) ==>
        Items() == old(Items()) + [old(arr.Elements())[old(topIndex) + 1]]
    {
      topIndex := topIndex + 1;
      arr.PushBack(val);
    }

    /** `pop()`: decrements `topIndex` before checking for emptiness, so a pop
        on an empty stack throws and still leaves `topIndex` one lower.
        Otherwise it returns the value at the old top. The array is never
        shrunk. */
    method Pop() returns (r: Result<T>)
      requires Valid()
      modifies this, arr
      ensures Valid() && topIndex == old(topIndex) - 1
      ensures unchanged(arr)
      ensures old(topIndex) < 0 ==> r == Err(RuntimeError)
      ensures 0 <= old(topIndex) ==> r == Ok(old(Items())[old(topIndex)])
      ensures 0 <= old(topIndex) ==> Items() == old(Items())[..old(topIndex)]
    {
      topIndex := topIndex - 1;
      if topIndex < -1 {
        return Err(RuntimeError);
      }
      var v := arr.Get(topIndex + 1);
      r := Ok(v);
    }

    /** `push` as intended: the value goes into the slot just above
        `topIndex`, overwriting a stale one when a pop left it, so the value
        always becomes the top. */
    method PushAtTop(val: T)
      requires Valid() && -1 <= topIndex < INT_MAX
      requires 0 < arr.capacity && (arr.arrSize == arr.capacity ==> arr.capacity * 2 <= UINT_MAX)
      modifies this, arr, arr.arr
      ensures Valid() && topIndex == old(topIndex) + 1
      ensures Items() == old(Items()) + [val]
      ensures old(topIndex) + 1 < old(arr.arrSize) ==>
        arr.arrSize == old(arr.arrSize) && arr.capacity == old(arr.capacity)
      ensures old(topIndex) + 1 == old(arr.arrSize) ==>
        arr.arrSize == old(arr.arrSize) + 1 &&
        arr.capacity == PushBackCapacity(old(arr.capacity), old(arr.arrSize))
      ensures arr.arr == old(arr.arr) || fresh(arr.arr)
    {
      if topIndex + 1 < arr.arrSize {
        topIndex := topIndex + 1;
        arr.Set(topIndex, val);
      } else {
        topIndex := topIndex + 1;
        arr.PushBack(val);
      }
    }

    /** `pop` as intended: the emptiness check comes first, so a pop on an
        empty stack throws and changes nothing. */
    method PopChecked() returns (r: Result<T>)
      requires Valid() && -1 <= topIndex
      modifies this, arr
      ensures Valid() && unchanged(arr) && -1 <= topIndex
      ensures old(Items()) == [] ==> r == Err(RuntimeError) && topIndex == old(topIndex)
      ensures old(Items()) != [] ==>
        r == Ok(old(Items())[|old(Items())| - 1]) && Items() == old(Items())[..|old(Items())| - 1]
    {
      if topIndex == -1 {
        return Err(RuntimeError);
      }
      topIndex := topIndex - 1;
      var v := arr.Get(topIndex + 1);
      r := Ok(v);
    }
  }

  /** The library's basic stack test, for any `n`: push 0 .. n-1 onto a new
      stack, then pop `n` times; the values come back in reverse order. */
  method PushThenPopAll(n: nat) returns (popped: seq<int>)
    requires n < 0x4000_0000
    ensures popped == seq(n, i => n - 1 - i)
  {
    var s := new Stack<int>();
    var i := 0;
    while i < n
      invariant i <= n
      invariant fresh(s) && fresh(s.arr) && fresh(s.arr.arr)
      invariant s.Valid() && s.Synced() && 0 < s.arr.capacity
      invariant s.arr.Elements() == seq(i, j => j)
    {
      s.Push(i);
      i := i + 1;
    }
    popped := [];
    var k := 0;
    while k < n
      invariant k <= n
      invariant fresh(s) && fresh(s.arr) && fresh(s.arr.arr)
      invariant s.Valid() && s.topIndex == n - 1 - k
      invariant s.arr.Elements() == seq(n, j => j)
      invariant popped == seq(k, j => n - 1 - j)
    {
      var r := s.Pop();
      popped := popped + [r.value];
      k := k + 1;
    }
  }

  /** A pop on an empty stack, as written: it throws, and `size()` then
      reports UINT_MAX elements. */
  method PopEmptyWrapsSize() returns (r: Result<int>, size: nat)
    ensures r == Err(RuntimeError) && size == UINT_MAX
  {
    var s := new Stack<int>();
    r := s.Pop();
    size := s.Size();
  }

  /** The intended pop on an empty stack throws and leaves the size 0. */
  method PopCheckedEmptyKeepsSize() returns (r: Result<int>, size: nat)
    ensures r == Err(RuntimeError) && size == 0
  {
    var s := new Stack<int>();
    r := s.PopChecked();
    size := s.Size();
  }

  /** Push 10 and 20, pop, push 30, and look at the top, as written: the
      top is the stale 20, not 30. */
  method StaleTopAfterPopPush() returns (t: Result<int>)
    ensures t == Ok(20)
  {
    var s := new Stack<int>();
    s.Push(10);
    s.Push(20);
    var _ := s.Pop();
    s.Push(30);
    t := s.Top();
  }

  /** The same scenario with the intended push and pop: the top is 30. */
  method TopAfterPopPushChecked() returns (t: Result<int>)
    ensures t == Ok(30)
  {
    var s := new Stack<int>();
    s.PushAtTop(10);
    s.PushAtTop(20);
    var _ := s.PopChecked();
    s.PushAtTop(30);
    t := s.Top();
  }
}
