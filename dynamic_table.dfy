/** dynamic_table.py: a table over a Python list that doubles when full and
    halves when at most half full after a delete, counting every element
    copied by a resize. */
module AmortizedTable {
  import opened Wrappers

  /** 1, 2, 4, 8, ... */
  ghost predicate PowerOfTwo(n: int)
    decreases n
  {
    n == 1 || (n >= 2 && n % 2 == 0 && PowerOfTwo(n / 2))
  }

  lemma {:induction false} DoublePowerOfTwo(n: int)
    requires PowerOfTwo(n)
    ensures PowerOfTwo(2 * n)
  {
    assert (2 * n) / 2 == n;
  }

  /** `DynamicTable`: the list `table` (its length is the capacity), the
      number `size` of live elements at its front, and the number
      `movements` of element copies made by resizes. */
  class DynamicTable {
    var table: array<Option<int>>
    var size: nat
    var movements: nat
    /** The live elements, oldest first. */
    ghost var Elements: seq<int>

    /** The live elements fill the front of the list, and the capacity is a
        power of two (so at least 1). */
    ghost predicate Valid()
      reads this, table
    {
      size <= table.Length && PowerOfTwo(table.Length) &&
      |Elements| == size &&
      forall i :: 0 <= i < size ==> table[i] == Some(Elements[i])
    }

    /** `__init__`: an empty table of capacity 2. */
    constructor ()
      ensures Valid() && fresh(table)
      ensures Elements == [] && table.Length == 2 && movements == 0
    {
      table := new Option<int>[2](_ => None);
      size := 0;
      movements := 0;
      Elements := [];
      assert PowerOfTwo(2 / 2);
    }

    /** `resize(new_cap)`: a fresh list of `new_cap` slots (Python `None`)
        receives the `size` live elements, one movement each. */
    method Resize(newCap: nat)
      requires Valid() && size <= newCap && PowerOfTwo(newCap)
      modifies this
      ensures Valid() && fresh(table)
      ensures table.Length == newCap
      ensures Elements == old(Elements) && size == old(size)
      ensures movements == old(movements) + size
      ensures forall i :: size <= i < newCap ==> table[i] == None
    {
      var newArr := new Option<int>[newCap](_ => None);
      var i := 0;
      while i < size
        invariant 0 <= i <= size
        invariant movements == old(movements) + i
        invariant size == old(size) && Elements == old(Elements) && table == old(table)
        invariant forall j :: 0 <= j < i ==> newArr[j] == Some(Elements[j])
        invariant forall j :: i <= j < newCap ==> newArr[j] == None
      {
        newArr[i] := table[i];
        movements := movements + 1;
        i := i + 1;
      }
      table := newArr;
    }

    /** `insert(value)`: on a full table the capacity doubles first; the
        value then goes into slot `size`. */
    method Insert(value: int)
      requires Valid()
      modifies this, table
      ensures Valid()
      ensures Elements == old(Elements) + [value]
      ensures old(size) == old(table.Length) ==>
        table.Length == 2 * old(table.Length) && movements == old(movements) + old(size)
      ensures old(size) < old(table.Length) ==>
        table == old(table) && movements == old(movements)
    {
      if size == table.Length {
        DoublePowerOfTwo(table.Length);
        Resize(table.Length * 2);
      }
      table[size] := Some(value);
      size := size + 1;
      Elements := Elements + [value];
    }

    /** `delete()`: `None` on an empty table; otherwise the most recently
        inserted live element is removed and returned, and the capacity
        halves when the new size is positive and at most half of it. */
    method Delete() returns (removed: Option<int>)
      requires Valid()
      modifies this
      ensures Valid()
      ensures old(size) == 0 ==>
        removed == None && Elements == old(Elements) && table == old(table) && movements == old(movements)
      ensures old(size) > 0 ==>
        removed == Some(old(Elements)[old(size) - 1]) && Elements == old(Elements)[..old(size) - 1]
      ensures old(size) > 0 && 0 < size <= old(table.Length) / 2 ==>
        table.Length == old(table.Length) / 2 && movements == old(movements) + size
      ensures old(size) > 0 && !(0 < size <= old(table.Length) / 2) ==>
        table == old(table) && movements == old(movements)
    {
      if size == 0 {
        return None;
      }
      removed := table[size - 1];
      size := size - 1;
      Elements := Elements[..size];
      if size > 0 && size <= table.Length / 2 {
        Resize(table.Length / 2);
      }
    }
  }
}
