/**
 * A growable array: items live in a backing array whose first count slots
 * hold the contents; the backing array doubles when an addition finds it full.
 */
module DynamicArrays {
  import opened Errors

  const DefaultCapacity: int := 4

  /** s with v inserted at position i. */
  function Inserted<T>(s: seq<T>, i: int, v: T): (r: seq<T>)
    requires 0 <= i <= |s|
    ensures |r| == |s| + 1 && r[i] == v
    ensures forall t :: 0 <= t < i ==> r[t] == s[t]
    ensures forall t :: i < t < |r| ==> r[t] == s[t - 1]
  {
    s[..i] + [v] + s[i..]
  }

  /** s without the element at position i. */
  function Removed<T>(s: seq<T>, i: int): (r: seq<T>)
    requires 0 <= i < |s|
    ensures |r| == |s| - 1
    ensures forall t :: 0 <= t < i ==> r[t] == s[t]
    ensures forall t :: i <= t < |r| ==> r[t] == s[t + 1]
  {
    s[..i] + s[i + 1..]
  }

  /** Removing what was just inserted gives back the original. */
  lemma RemoveUndoesInsert<T>(s: seq<T>, i: int, v: T)
    requires 0 <= i <= |s|
    ensures Removed(Inserted(s, i, v), i) == s
  {
    var r := Removed(Inserted(s, i, v), i);
    assert forall t :: 0 <= t < |s| ==> r[t] == s[t];
  }

  /** Putting a removed element back where it was gives back the original. */
  lemma InsertUndoesRemove<T>(s: seq<T>, i: int)
    requires 0 <= i < |s|
    ensures Inserted(Removed(s, i), i, s[i]) == s
  {
    var r := Inserted(Removed(s, i), i, s[i]);
    assert forall t :: 0 <= t < |s| ==> r[t] == s[t];
  }

  /** Inserting at the end is appending: Insert(Count, v) and Add(v) agree on the contents. */
  lemma InsertAtEndAppends<T>(s: seq<T>, v: T)
    ensures Inserted(s, |s|, v) == s + [v]
  {
    assert s[|s|..] == [];
  }

  /**
   * The index check shared by the indexer, Insert and RemoveAt: it rejects
   * only index < 0 and index > count.
   */
  predicate IndexAccepted(index: int, count: int) {
    !(index < 0 || index > count)
  }

  /**
   * The check accepts index == count, one past the last item: right for
   * Insert, where it appends, but for the indexer it reaches the slot after
   * the contents and on an empty array RemoveAt(0) passes it.
   */
  lemma IndexCheckAcceptsCount(count: nat)
    ensures IndexAccepted(count, count)
    ensures count == 0 ==> IndexAccepted(0, 0)
  {
  }

  class DynamicArray<T(==)> {
    var items: array<T>
    var count: int
    /** default(T), which fresh slots and cleared slots hold. */
    const defaultValue: T

    /**
     * count lies between -1 and the capacity; -1 is where RemoveAt(0) on an
     * empty array leaves it. The capacity starts at 4 and only doubles.
     */
    ghost predicate Valid()
      reads this
    {
      -1 <= count <= items.Length && items.Length >= DefaultCapacity
    }

    /** The items, items[0..count); a count of -1 holds none. */
    function Contents(): seq<T>
      reads this, items
      requires Valid()
    {
      if count < 0 then [] else items[..count]
    }

    /** The slots after the items; Get(Count) and Set(Count, _) still reach the first of them. */
    function Spare(): seq<T>
      reads this, items
      requires Valid()
    {
      if count < 0 then items[..] else items[count..]
    }

    function Count(): int
      reads this
    {
      count
    }

    function Capacity(): int
      reads this
    {
      items.Length
    }

    /** An empty array with room for four items. */
    constructor(defaultValue: T)
      ensures Valid() && Contents() == [] && Capacity() == DefaultCapacity
      ensures fresh(items) && Spare() == seq(DefaultCapacity, _ => defaultValue)
      ensures this.defaultValue == defaultValue
    {
      this.defaultValue := defaultValue;
      count := 0;
      items := new T[DefaultCapacity](_ => defaultValue);
    }

    /**
     * The indexer's getter. An index the check accepts is read from the
     * backing array, so index == count reads the spare slot, and throws only
     * when the array is full.
     */
    method Get(index: int) returns (r: Result<T>)
      requires Valid()
      ensures !IndexAccepted(index, count) || index == items.Length ==> r == Throws(IndexOutOfRangeException)
      ensures 0 <= index < count ==> r == Ok(Contents()[index])
      ensures 0 <= index == count < items.Length ==> r == Ok(Spare()[0])
    {
      if !IndexAccepted(index, count) || index >= items.Length {
        return Throws(IndexOutOfRangeException);
      }
      return Ok(items[index]);
    }

    /** The indexer's getter with the check rejecting index >= count. */
    method GetChecked(index: int) returns (r: Result<T>)
      requires Valid()
      ensures r.Ok? <==> 0 <= index < |Contents()|
      ensures r.Ok? ==> r.value == Contents()[index]
      ensures r.Throws? ==> r.error == IndexOutOfRangeException
    {
      if index < 0 || index >= count {
        return Throws(IndexOutOfRangeException);
      }
      return Ok(items[index]);
    }

    /**
     * The indexer's setter. index == count passes the check and writes the
     * spare slot, leaving Count as it was.
     */
    method Set(index: int, value: T) returns (r: Result<()>)
      requires Valid()
      modifies items
      ensures !IndexAccepted(index, count) || index == items.Length ==>
                r == Throws(IndexOutOfRangeException) && items[..] == old(items[..])
      ensures IndexAccepted(index, count) && index < items.Length ==>
                r == Ok(()) && items[..] == old(items[..])[index := value]
      ensures 0 <= index < count ==> Contents() == old(Contents())[index := value] && Spare() == old(Spare())
    {
      if !IndexAccepted(index, count) || index >= items.Length {
        return Throws(IndexOutOfRangeException);
      }
      items[index] := value;
      return Ok(());
    }

    /** Moves the items into a new backing array twice as long. */
    method Resize()
      requires Valid() && count >= 0
      modifies this
      ensures Valid() && count == old(count) && fresh(items)
      ensures items.Length == 2 * old(items.Length)
      ensures Contents() == old(Contents())
      ensures Spare() == seq(items.Length - count, _ => defaultValue)
    {
      var newArray := new T[items.Length * 2](_ => defaultValue);
      CopyPrefix(items, newArray, count);
      items := newArray;
    }

    /** Makes room for one more item, resizing when the backing array is full. */
    method ValidateAndResize()
      requires Valid() && count >= 0
      modifies this
      ensures Valid() && count == old(count) && count < items.Length
      ensures Contents() == old(Contents())
      ensures old(count) < old(items.Length) ==> items == old(items)
      ensures old(count) == old(items.Length) ==>
                && fresh(items) && items.Length == 2 * old(items.Length)
                && Spare() == seq(items.Length - count, _ => defaultValue)
    {
      if count == items.Length {
        Resize();
      }
    }

    /**
     * Appends item, doubling the capacity first when full. With count at -1,
     * count++ brings it back to 0 before the store to items[-1] throws.
     */
    method Add(item: T) returns (r: Result<()>)
      requires Valid()
      modifies this, items
      ensures Valid()
      ensures old(count) == -1 ==>
                && r == Throws(IndexOutOfRangeException) && count == 0
                && items == old(items) && items[..] == old(items[..])
      ensures old(count) >= 0 ==> r == Ok(()) && Contents() == old(Contents()) + [item]
      ensures 0 <= old(count) < old(items.Length) ==> items == old(items) && Spare() == old(Spare())[1..]
      ensures old(count) == old(items.Length) ==>
                && fresh(items) && items.Length == 2 * old(items.Length)
                && Spare() == seq(old(items.Length) - 1, _ => defaultValue)
    {
      if count == -1 {
        count := 0;
        return Throws(IndexOutOfRangeException);
      }
      ValidateAndResize();
      ghost var before := items[..];
      items[count] := item;
      count := count + 1;
      assert items[..count] == before[..count - 1] + [item];
      assert Spare() == before[count..];
      return Ok(());
    }

    /**
     * Inserts value at index, shifting the items from index on one slot to
     * the right; index == Count appends.
     */
    method Insert(index: int, value: T) returns (r: Result<()>)
      requires Valid()
      modifies this, items
      ensures Valid()
      ensures !IndexAccepted(index, old(count)) ==>
                && r == Throws(IndexOutOfRangeException) && count == old(count)
                && items == old(items) && items[..] == old(items[..])
      ensures IndexAccepted(index, old(count)) ==>
                r == Ok(()) && Contents() == Inserted(old(Contents()), index, value)
      ensures IndexAccepted(index, old(count)) && old(count) < old(items.Length) ==>
                items == old(items) && Spare() == old(Spare())[1..]
      ensures IndexAccepted(index, old(count)) && old(count) == old(items.Length) ==>
                && fresh(items) && items.Length == 2 * old(items.Length)
                && Spare() == seq(old(items.Length) - 1, _ => defaultValue)
    {
      if !IndexAccepted(index, count) {
        return Throws(IndexOutOfRangeException);
      }
      ValidateAndResize();
      InsertIntoRoom(index, value);
      return Ok(());
    }

    /** Shifts the items from index on right by one and stores value in the freed slot. */
    method InsertIntoRoom(index: int, value: T)
      requires Valid() && 0 <= index <= count < items.Length
      modifies this, items
      ensures Valid() && items == old(items) && count == old(count) + 1
      ensures Contents() == Inserted(old(Contents()), index, value)
      ensures Spare() == old(Spare())[1..]
    {
      ghost var spare := items[count + 1..];
      assert spare == Spare()[1..];
      InsertAt(items, index, count, value);
      count := count + 1;
      assert Spare() == spare;
    }

    /**
     * Removes the item at index, shifting the later ones left and resetting
     * the freed slot to default. index == Count passes the check and drops
     * the last item; on an empty array count becomes -1 before the store to
     * items[-1] throws.
     */
    method RemoveAt(index: int) returns (r: Result<()>)
      requires Valid()
      modifies this, items
      ensures Valid() && items == old(items)
      ensures !IndexAccepted(index, old(count)) ==>
                r == Throws(IndexOutOfRangeException) && count == old(count) && items[..] == old(items[..])
      ensures IndexAccepted(index, old(count)) && old(count) == 0 ==>
                r == Throws(IndexOutOfRangeException) && count == -1 && items[..] == old(items[..])
      ensures IndexAccepted(index, old(count)) && old(count) > 0 ==>
                r == Ok(()) && Spare() == [defaultValue] + old(Spare())
      ensures 0 <= index < old(count) ==> Contents() == Removed(old(Contents()), index)
      ensures 0 < index == old(count) ==> Contents() == Removed(old(Contents()), index - 1)
    {
      if !IndexAccepted(index, count) {
        return Throws(IndexOutOfRangeException);
      }
      ghost var before := items[..];
      ShiftLeft(items, index, count);
      count := count - 1;
      if count < 0 {
        return Throws(IndexOutOfRangeException);
      }
      items[count] := defaultValue;
      assert Spare() == [defaultValue] + before[count + 1..];
      return Ok(());
    }

    /** RemoveAt with the check rejecting index >= count: count never drops below 0. */
    method RemoveAtChecked(index: int) returns (r: Result<()>)
      requires Valid() && count >= 0
      modifies this, items
      ensures Valid() && count >= 0 && items == old(items)
      ensures !(0 <= index < old(count)) ==>
                r == Throws(IndexOutOfRangeException) && count == old(count) && items[..] == old(items[..])
      ensures 0 <= index < old(count) ==>
                && r == Ok(()) && Contents() == Removed(old(Contents()), index)
                && Spare() == [defaultValue] + old(Spare())
    {
      if index < 0 || index >= count {
        return Throws(IndexOutOfRangeException);
      }
      ghost var before := items[..];
      ShiftLeft(items, index, count);
      count := count - 1;
      items[count] := defaultValue;
      assert Spare() == [defaultValue] + before[count + 1..];
      return Ok(());
    }

    /** The first index holding an item equal to item, or -1. */
    method IndexOf(item: T) returns (r: int)
      requires Valid()
      ensures -1 <= r < |Contents()|
      ensures r == -1 <==> item !in Contents()
      ensures r >= 0 ==> Contents()[r] == item && item !in Contents()[..r]
    {
      var i := 0;
      while i < count
        invariant 0 <= i <= items.Length && (count >= 0 ==> i <= count)
        invariant forall t :: 0 <= t < i ==> items[t] != item
      {
        if items[i] == item {
          return i;
        }
        i := i + 1;
      }
      return -1;
    }

    method Contains(item: T) returns (r: bool)
      requires Valid()
      ensures r <==> item in Contents()
    {
      var index := IndexOf(item);
      return index != -1;
    }

    /**
     * Resets the items to default and empties the array, keeping its
     * capacity. With count at -1, Array.Clear rejects the negative length.
     */
    method Clear() returns (r: Result<()>)
      requires Valid()
      modifies this, items
      ensures Valid() && items == old(items)
      ensures old(count) == -1 ==>
                r == Throws(ArgumentOutOfRangeException) && count == -1 && items[..] == old(items[..])
      ensures old(count) >= 0 ==>
                && r == Ok(()) && Contents() == []
                && items[..] == seq(old(count), _ => defaultValue) + old(Spare())
    {
      if count < 0 {
        return Throws(ArgumentOutOfRangeException);
      }
      ClearPrefix(items, count, defaultValue);
      count := 0;
      return Ok(());
    }
  }

  /** Array.Copy(source, destination, n): the first n elements. */
  method CopyPrefix<T>(source: array<T>, destination: array<T>, n: int)
    requires 0 <= n <= source.Length && n <= destination.Length && source != destination
    modifies destination
    ensures destination[..n] == source[..n]
    ensures destination[n..] == old(destination[n..])
  {
    for i := 0 to n
      invariant forall t :: 0 <= t < i ==> destination[t] == source[t]
      invariant forall t :: n <= t < destination.Length ==> destination[t] == old(destination[t])
    {
      destination[i] := source[i];
    }
  }

  /** Array.Clear(a, 0, n) with d for default(T). */
  method ClearPrefix<T>(a: array<T>, n: int, d: T)
    requires 0 <= n <= a.Length
    modifies a
    ensures a[..] == seq(n, _ => d) + old(a[n..])
  {
    for i := 0 to n
      invariant forall t :: 0 <= t < i ==> a[t] == d
      invariant forall t :: n <= t < a.Length ==> a[t] == old(a[t])
    {
      a[i] := d;
    }
  }

  /** The body of Insert once there is room: shift right, then store value at index. */
  method InsertAt<T>(a: array<T>, index: int, count: int, value: T)
    requires 0 <= index <= count < a.Length
    modifies a
    ensures a[..count + 1] == Inserted(old(a[..count]), index, value)
    ensures a[count + 1..] == old(a[count + 1..])
  {
    ghost var before := a[..];
    ShiftRight(a, index, count);
    a[index] := value;
    assert forall t :: 0 <= t <= count ==> a[t] == Inserted(before[..count], index, value)[t];
  }

  /** The loop of Insert: a[index..count) moves to a[index + 1..count]. */
  method ShiftRight<T>(a: array<T>, index: int, count: int)
    requires 0 <= index <= count < a.Length
    modifies a
    ensures forall t :: 0 <= t < a.Length && (t <= index || count < t) ==> a[t] == old(a[t])
    ensures forall t :: index < t <= count ==> a[t] == old(a[t - 1])
  {
    var i := count;
    while i > index
      invariant index <= i <= count
      invariant forall t :: 0 <= t < a.Length && (t <= i || count < t) ==> a[t] == old(a[t])
      invariant forall t :: i < t <= count ==> a[t] == old(a[t - 1])
    {
      a[i] := a[i - 1];
      i := i - 1;
    }
  }

  /** The loop of RemoveAt: a[index + 1..count) moves to a[index..count - 1). */
  method ShiftLeft<T>(a: array<T>, index: int, count: int)
    requires 0 <= index <= count <= a.Length
    modifies a
    ensures forall t :: 0 <= t < a.Length && (t < index || count - 1 <= t) ==> a[t] == old(a[t])
    ensures forall t :: index <= t < count - 1 ==> a[t] == old(a[t + 1])
  {
    var i := index;
    while i < count - 1
      invariant index <= i && (index < count ==> i <= count - 1) && (index == count ==> i == index)
      invariant forall t :: 0 <= t < a.Length && (t < index || i <= t) ==> a[t] == old(a[t])
      invariant forall t :: index <= t < i ==> a[t] == old(a[t + 1])
    {
      a[i] := a[i + 1];
      i := i + 1;
    }
  }
}
