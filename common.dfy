/** Definitions shared by the three containers: the width of C++ `unsigned`
    and `int`, the exceptions the containers throw, as values, and the grow
    checks that src/dynarr.hpp and inc/dynarr.hpp write out alike. */
module Common {

  /** Largest value of a 32-bit `unsigned`. */
  const UINT_MAX: nat := 0xFFFF_FFFF

  /** Largest value of a 32-bit `int`. */
  const INT_MAX: int := 0x7FFF_FFFF

  /** The standard exception class a container throws. */
  datatype Error =
    | RuntimeError   // std::runtime_error
    | OutOfRange     // std::out_of_range

  /** The value an operation returns, or the exception it throws. */
  datatype Result<+T> = Ok(value: T) | Err(error: Error)

  /** The outcome of an operation that returns nothing (`void`) or throws. */
  datatype Outcome = Done | Fail(error: Error)

  /** Conversion of a signed value to a 32-bit `unsigned`, as C++ does it
      (reduction modulo 2^32). */
  function ToUnsigned(x: int): (r: nat)
    ensures r <= UINT_MAX
    ensures 0 <= x <= UINT_MAX ==> r == x
    ensures -(UINT_MAX + 1) <= x < 0 ==> r == x + UINT_MAX + 1
  {
    x % (UINT_MAX + 1)
  }

  /** Capacity after the grow check of `get`, `set` and `operator[]`: the
      buffer grows to `index * 2` only when `index > capacity`. */
  function GrownCapacity(capacity: nat, index: nat): (r: nat)
    ensures capacity <= r
    ensures index != capacity ==> index < r
    ensures index == capacity ==> r == index  // slot `index` is one past the buffer
    ensures index < capacity ==> r == capacity
  {
    if index > capacity then index * 2 else capacity
  }

  /** The grow check as evidently intended, `index >= capacity`: afterwards
      slot `index` lies inside the buffer, except for index 0 of a
      zero-capacity array, which doubling cannot grow. */
  function GrownCapacityChecked(capacity: nat, index: nat): (r: nat)
    ensures capacity <= r
    ensures index < r || (index == 0 && capacity == 0)
    ensures index < capacity ==> r == capacity
  {
    if index >= capacity then index * 2 else capacity
  }

  /** Capacity after the grow check of `pushBack`: doubled when full. */
  function PushBackCapacity(capacity: nat, size: nat): (r: nat)
    requires size <= capacity
    ensures capacity <= r
    ensures 0 < capacity ==> size < r
    ensures size < capacity ==> r == capacity
    ensures size == capacity ==> r == 2 * capacity
  {
    if size == capacity then capacity * 2 else capacity
  }
}
