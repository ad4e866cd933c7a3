/** amortized_stack.py: a stack over a Python list that doubles when full
    and halves when a pop leaves it a quarter full. */
module AmortizedStack {
  import opened Wrappers
  import opened AmortizedTable

  /** `DynamicStack`: the list `stack` (its length is the capacity) and the
      number `size` of live values at its front. */
  class DynamicStack {
    var stack: array<Option<int>>
    var size: nat
    /** The live values, bottom first. */
    ghost var Values: seq<int>

    /** The live values fill the front of the list, and the capacity is a
        power of two of at least 2. */
    ghost predicate Valid()
      reads this, stack
    {
      size <= stack.Length && 2 <= stack.Length && PowerOfTwo(stack.Length) &&
      |Values| == size &&
      forall i :: 0 <= i < size ==> stack[i] == Some(Values[i])
    }

    /** `__init__`: an empty stack of capacity 2. */
    constructor ()
      ensures Valid() && fresh(stack)
      ensures Values == [] && stack.Length == 2
    {
      stack := new Option<int>[2](_ => None);
      size := 0;
      Values := [];
      assert PowerOfTwo(2 / 2);
    }

    /** `resize(new_cap)`: a fresh list of `new_cap` slots receives the live
        values. */
    method Resize(newCap: nat)
      requires Valid() && size <= newCap && 2 <= newCap && PowerOfTwo(newCap)
      modifies this
      ensures Valid() && fresh(stack)
      ensures stack.Length == newCap
      ensures Values == old(Values) && size == old(size)
      ensures forall i :: size <= i < newCap ==> stack[i] == None
    {
      var newArr := new Option<int>[newCap](_ => None);
      var i := 0;
      while i < size
        invariant 0 <= i <= size
        invariant size == old(size) && Values == old(Values) && stack == old(stack)
        invariant forall j :: 0 <= j < i ==> newArr[j] == Some(Values[j])
        invariant forall j :: i <= j < newCap ==> newArr[j] == None
      {
        newArr[i] := stack[i];
        i := i + 1;
      }
      stack := newArr;
    }

    /** `push(value)`: on a full stack the capacity doubles first; the value
        then goes on top. */
    method Push(value: int)
      requires Valid()
      modifies this, stack
      ensures Valid()
      ensures Values == old(Values) + [value]
      ensures old(size) == old(stack.Length) ==> stack.Length == 2 * old(stack.Length)
      ensures old(size) < old(stack.Length) ==> stack == old(stack)
    {
      if size == stack.Length {
        DoublePowerOfTwo(stack.Length);
        Resize(stack.Length * 2);
      }
      stack[size] := Some(value);
      size := size + 1;
      Values := Values + [value];
    }

    /** `pop()`: `None` on an empty stack; otherwise the top value is
        removed and returned, and the capacity halves when the new size is
        positive and exactly a quarter of it (rounded down). */
    method Pop() returns (value: Option<int>)
      requires Valid()
      modifies this
      ensures Valid()
      ensures old(size) == 0 ==> value == None && Values == old(Values) && stack == old(stack)
      ensures old(size) > 0 ==>
        value == Some(old(Values)[old(size) - 1]) && Values == old(Values)[..old(size) - 1]
      ensures old(size) > 0 && 0 < size == old(stack.Length) / 4 ==> stack.Length == old(stack.Length) / 2
      ensures old(size) > 0 && !(0 < size == old(stack.Length) / 4) ==> stack == old(stack)
    {
      if size == 0 {
        return None;
      }
      value := stack[size - 1];
      size := size - 1;
      Values := Values[..size];
      if size > 0 && size == stack.Length / 4 {
        Resize(stack.Length / 2);
      }
    }
  }
}
